/** The block-capacity scan `findMaxNnz`: for every matrix row, count the
    block-columns of width `blockSize` the row touches with a moving
    "boundary", and return the largest count times `blockSize`. */
module Capacity {
  import opened SortedList
  import opened Csr
  import opened Blocks

  /** State of the per-row scan after a run of columns: the boundary (`flag`
      in the source) and the block-columns counted so far, whose number is
      the source's `number_of_cols`. */
  datatype ScanState = ScanState(boundary: int, counted: seq<int>)

  /** An entry counts when its column is at or beyond the boundary; the
      boundary then moves to the first column of the next block-column. */
  function Scan(cols: seq<int>, blockSize: int): ScanState
    requires blockSize > 0
  {
    if cols == [] then ScanState(0, [])
    else
      var st := Scan(cols[..|cols| - 1], blockSize);
      var c := cols[|cols| - 1];
      if st.boundary <= c then ScanState((c / blockSize) * blockSize + blockSize, st.counted + [c / blockSize])
      else st
  }

  /** The column indices stored for row `r`. */
  function RowCols(rowPtr: seq<int>, colIndex: seq<int>, numRows: nat, r: int): seq<int>
    requires WellFormedCsr(rowPtr, colIndex, numRows) && 0 <= r < numRows
  {
    colIndex[rowPtr[r]..rowPtr[r + 1]]
  }

  /** The source's `number_of_cols` for row `r`. */
  function RowBlockCount(rowPtr: seq<int>, colIndex: seq<int>, numRows: nat, blockSize: nat, r: int): nat
    requires WellFormedCsr(rowPtr, colIndex, numRows) && blockSize > 0 && 0 <= r < numRows
  {
    |Scan(RowCols(rowPtr, colIndex, numRows, r), blockSize).counted|
  }

  /** Each entry counts at most one block, so `number_of_cols` never exceeds
      the number of entries of the row. */
  lemma {:induction false} ScanCountBound(cols: seq<int>, blockSize: int)
    requires blockSize > 0
    ensures |Scan(cols, blockSize).counted| <= |cols|
  {
    if cols != [] {
      ScanCountBound(cols[..|cols| - 1], blockSize);
    }
  }

  /** The boundary is 0 until something is counted, and afterwards the first
      column of the block-column after the last one counted. */
  lemma {:induction false} ScanBoundary(cols: seq<int>, blockSize: int)
    requires blockSize > 0
    ensures var st := Scan(cols, blockSize);
      (st.counted == [] ==> st.boundary == 0) &&
      (st.counted != [] ==> st.boundary == (st.counted[|st.counted| - 1] + 1) * blockSize)
  {
    if cols != [] {
      ScanBoundary(cols[..|cols| - 1], blockSize);
      var b := cols[|cols| - 1] / blockSize;
      assert (b + 1) * blockSize == b * blockSize + blockSize;
    }
  }

  /** The counted block-columns strictly increase. */
  lemma {:induction false} ScanStrict(cols: seq<int>, blockSize: int)
    requires blockSize > 0
    ensures StrictlyAscending(Scan(cols, blockSize).counted)
  {
    if cols != [] {
      var init := cols[..|cols| - 1];
      var c := cols[|cols| - 1];
      var st := Scan(init, blockSize);
      ScanStrict(init, blockSize);
      if st.boundary <= c && st.counted != [] {
        ScanBoundary(init, blockSize);
        var last := st.counted[|st.counted| - 1];
        DivAtLeast(c, last + 1, blockSize);
        var counted := st.counted + [c / blockSize];
        forall i, j | 0 <= i < j < |counted| ensures counted[i] < counted[j] {
          if j == |counted| - 1 && i < |counted| - 2 {
            assert counted[i] < last;
          }
        }
      }
    }
  }

  /** Every counted block-column is one the run touches. */
  lemma {:induction false} ScanCountsTouched(cols: seq<int>, blockSize: int)
    requires blockSize > 0
    ensures Elements(Scan(cols, blockSize).counted) <= BlockSet(cols, blockSize)
  {
    if cols != [] {
      var init := cols[..|cols| - 1];
      var c := cols[|cols| - 1];
      assert cols == init + [c];
      ScanCountsTouched(init, blockSize);
      BlockSetAppend(init, c, blockSize);
      var st := Scan(init, blockSize);
      assert Elements(st.counted + [c / blockSize]) == Elements(st.counted) + {c / blockSize};
    }
  }

  /** A column between a column of block-column `b` and the start of the next
      block-column is in block-column `b` too. */
  lemma SameBlock(p: int, c: int, blockSize: int, b: int)
    requires blockSize > 0 && p <= c < (b + 1) * blockSize && p / blockSize == b
    ensures c / blockSize == b
  {
    DivBelow(c, b + 1, blockSize);
    assert b * blockSize <= p;
    DivAtLeast(c, b, blockSize);
  }

  /** On a run sorted by column, the last block-column counted is that of the
      last column. */
  lemma {:induction false} ScanSortedLast(cols: seq<int>, blockSize: int)
    requires blockSize > 0
    requires Ascending(cols)
    requires forall k :: 0 <= k < |cols| ==> 0 <= cols[k]
    requires cols != []
    ensures Scan(cols, blockSize).counted != []
    ensures Scan(cols, blockSize).counted[|Scan(cols, blockSize).counted| - 1] == cols[|cols| - 1] / blockSize
  {
    var init := cols[..|cols| - 1];
    var c := cols[|cols| - 1];
    var st := Scan(init, blockSize);
    ScanBoundary(init, blockSize);
    if st.boundary > c {
      assert init != [];
      ScanSortedLast(init, blockSize);
      SameBlock(init[|init| - 1], c, blockSize, st.counted[|st.counted| - 1]);
    }
  }

  /** On a run sorted by column, the last column's block-column is counted:
      either newly, or because it is the last one counted already. */
  lemma ScanSortedStep(cols: seq<int>, blockSize: int)
    requires blockSize > 0
    requires Ascending(cols)
    requires forall k :: 0 <= k < |cols| ==> 0 <= cols[k]
    requires cols != []
    ensures Elements(Scan(cols, blockSize).counted) ==
      Elements(Scan(cols[..|cols| - 1], blockSize).counted) + {cols[|cols| - 1] / blockSize}
  {
    var init := cols[..|cols| - 1];
    var c := cols[|cols| - 1];
    var st := Scan(init, blockSize);
    if st.boundary <= c {
      assert Scan(cols, blockSize).counted == st.counted + [c / blockSize];
    } else {
      ScanSortedRepeat(cols, blockSize);
    }
  }

  /** A sorted column below the boundary lies in the last block-column
      counted. */
  lemma ScanSortedRepeat(cols: seq<int>, blockSize: int)
    requires blockSize > 0
    requires Ascending(cols)
    requires forall k :: 0 <= k < |cols| ==> 0 <= cols[k]
    requires cols != [] && Scan(cols[..|cols| - 1], blockSize).boundary > cols[|cols| - 1]
    ensures cols[|cols| - 1] / blockSize in Elements(Scan(cols[..|cols| - 1], blockSize).counted)
  {
    var init := cols[..|cols| - 1];
    var c := cols[|cols| - 1];
    var st := Scan(init, blockSize);
    ScanBoundary(init, blockSize);
    ScanSortedLast(init, blockSize);
    SameBlock(init[|init| - 1], c, blockSize, st.counted[|st.counted| - 1]);
  }

  /** On a run sorted by column, every touched block-column is counted. */
  lemma {:induction false} ScanSorted(cols: seq<int>, blockSize: int)
    requires blockSize > 0
    requires Ascending(cols)
    requires forall k :: 0 <= k < |cols| ==> 0 <= cols[k]
    ensures Elements(Scan(cols, blockSize).counted) == BlockSet(cols, blockSize)
  {
    if cols != [] {
      var init := cols[..|cols| - 1];
      var c := cols[|cols| - 1];
      assert cols == init + [c];
      BlockSetAppend(init, c, blockSize);
      ScanSorted(init, blockSize);
      ScanSortedStep(cols, blockSize);
    }
  }

  /** The count of a row never exceeds the number of distinct block-columns it
      touches, and equals it when the row's columns are sorted. */
  lemma RowCountBound(rowPtr: seq<int>, colIndex: seq<int>, numRows: nat, blockSize: nat, r: int)
    requires WellFormedCsr(rowPtr, colIndex, numRows) && blockSize > 0 && 0 <= r < numRows
    ensures var cols := RowCols(rowPtr, colIndex, numRows, r);
      RowBlockCount(rowPtr, colIndex, numRows, blockSize, r) <= |BlockSet(cols, blockSize)| &&
      (Ascending(cols) ==> RowBlockCount(rowPtr, colIndex, numRows, blockSize, r) == |BlockSet(cols, blockSize)|)
  {
    var cols := RowCols(rowPtr, colIndex, numRows, r);
    var st := Scan(cols, blockSize);
    ScanStrict(cols, blockSize);
    ScanCountsTouched(cols, blockSize);
    StrictCard(st.counted);
    assert |Elements(st.counted)| <= |BlockSet(cols, blockSize)| by {
      SubsetCard(Elements(st.counted), BlockSet(cols, blockSize));
    }
    if Ascending(cols) {
      ScanSorted(cols, blockSize);
    }
  }

  lemma SubsetCard(a: set<int>, b: set<int>)
    requires a <= b
    ensures |a| <= |b|
  {
    assert b == a + (b - a);
  }

  /** `findMaxNnz`. The result is the largest per-row count times
      `blockSize`; it is 0 when no row stores an entry. */
  method FindMaxNnz(rowPtr: seq<int>, colIndex: seq<int>, numRows: nat, blockSize: nat) returns (ellCols: int)
    requires WellFormedCsr(rowPtr, colIndex, numRows) && blockSize > 0
    ensures ellCols >= 0 && ellCols % blockSize == 0
    ensures forall r :: 0 <= r < numRows ==> RowBlockCount(rowPtr, colIndex, numRows, blockSize, r) <= ellCols / blockSize
    ensures ellCols > 0 ==> exists r :: 0 <= r < numRows && RowBlockCount(rowPtr, colIndex, numRows, blockSize, r) == ellCols / blockSize
    ensures (forall r :: 0 <= r < numRows ==> rowPtr[r] == rowPtr[r + 1]) ==> ellCols == 0
  {
    var max := 0;
    var i := 0;
    while i < numRows
      invariant 0 <= i <= numRows && 0 <= max
      invariant forall r :: 0 <= r < i ==> RowBlockCount(rowPtr, colIndex, numRows, blockSize, r) <= max
      invariant max > 0 ==> exists r :: 0 <= r < i && RowBlockCount(rowPtr, colIndex, numRows, blockSize, r) == max
    {
      var flag := 0;
      var numberOfCols := 0;
      var lo := rowPtr[i];
      var j := lo;
      while j < rowPtr[i + 1]
        invariant lo <= j <= rowPtr[i + 1]
        invariant flag == Scan(colIndex[lo..j], blockSize).boundary
        invariant numberOfCols == |Scan(colIndex[lo..j], blockSize).counted|
      {
        ScanExtend(colIndex, lo, j, blockSize);
        if flag <= colIndex[j] {
          flag := (colIndex[j] / blockSize) * blockSize + blockSize;
          numberOfCols := numberOfCols + 1;
        }
        j := j + 1;
      }
      assert numberOfCols == RowBlockCount(rowPtr, colIndex, numRows, blockSize, i);
      if numberOfCols > max {
        max := numberOfCols;
      }
      i := i + 1;
    }
    ellCols := max * blockSize;
    MulDivCancel(max, blockSize);
  }

  /** One step of the scan over `colIndex[lo..j]`. */
  lemma ScanExtend(colIndex: seq<int>, lo: int, j: int, blockSize: int)
    requires 0 <= lo <= j < |colIndex| && blockSize > 0
    ensures var st := Scan(colIndex[lo..j], blockSize);
      var c := colIndex[j];
      Scan(colIndex[lo..j + 1], blockSize) ==
        if st.boundary <= c then ScanState((c / blockSize) * blockSize + blockSize, st.counted + [c / blockSize])
        else st
  {
    assert colIndex[lo..j + 1][..j - lo] == colIndex[lo..j];
  }

  /** The update of `flag` and the counter after entry `j` (lines 69-72,
      and 144-147 with `ctr`) keeps them equal to the scan's boundary and
      count. */
  lemma CounterStep(colIndex: seq<int>, lo: int, j: int, blockSize: int, flag: int, count: int)
    requires 0 <= lo <= j < |colIndex| && blockSize > 0
    requires flag == Scan(colIndex[lo..j], blockSize).boundary
    requires count == |Scan(colIndex[lo..j], blockSize).counted|
    ensures var st := Scan(colIndex[lo..j + 1], blockSize);
      var c := colIndex[j];
      if flag <= c then st.boundary == (c / blockSize) * blockSize + blockSize && |st.counted| == count + 1
      else st.boundary == flag && |st.counted| == count
  {
    ScanExtend(colIndex, lo, j, blockSize);
  }
}
