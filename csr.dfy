/** Compressed Sparse Row storage and its construction from coordinate (COO)
    triplets, as `main` does after the sort step. Values are only copied, so
    their type is a parameter. */
module Csr {

  /** The shape every consumer of a CSR matrix relies on: one row pointer per
      row plus one, non-decreasing, inside the column array, and non-negative
      column indices. */
  predicate WellFormedCsr(rowPtr: seq<int>, colIndex: seq<int>, numRows: nat)
  {
    |rowPtr| == numRows + 1 &&
    0 <= rowPtr[0] && rowPtr[numRows] <= |colIndex| &&
    (forall i, j :: 0 <= i <= j <= numRows ==> rowPtr[i] <= rowPtr[j]) &&
    (forall k :: 0 <= k < |colIndex| ==> 0 <= colIndex[k])
  }

  /** Number of entries whose row is `r`. */
  function CountRow(rows: seq<int>, r: int): (n: nat)
    ensures n <= |rows|
  {
    if rows == [] then 0
    else CountRow(rows[..|rows| - 1], r) + (if rows[|rows| - 1] == r then 1 else 0)
  }

  /** Number of entries whose row is below `r`. */
  function CountBelow(rows: seq<int>, r: int): (n: nat)
    ensures n <= |rows|
  {
    if rows == [] then 0
    else CountBelow(rows[..|rows| - 1], r) + (if rows[|rows| - 1] < r then 1 else 0)
  }

  lemma {:induction false} CountBelowStep(rows: seq<int>, r: int)
    ensures CountBelow(rows, r + 1) == CountBelow(rows, r) + CountRow(rows, r)
  {
    if rows != [] {
      CountBelowStep(rows[..|rows| - 1], r);
    }
  }

  lemma {:induction false} CountBelowMonotone(rows: seq<int>, r: int, r': int)
    requires r <= r'
    ensures CountBelow(rows, r) <= CountBelow(rows, r')
  {
    if rows != [] {
      CountBelowMonotone(rows[..|rows| - 1], r, r');
    }
  }

  lemma {:induction false} CountBelowNone(rows: seq<int>, r: int)
    requires forall i :: 0 <= i < |rows| ==> r <= rows[i]
    ensures CountBelow(rows, r) == 0
  {
    if rows != [] {
      CountBelowNone(rows[..|rows| - 1], r);
    }
  }

  lemma {:induction false} CountBelowAll(rows: seq<int>, r: int)
    requires forall i :: 0 <= i < |rows| ==> rows[i] < r
    ensures CountBelow(rows, r) == |rows|
  {
    if rows != [] {
      CountBelowAll(rows[..|rows| - 1], r);
    }
  }

  /** In a row-sorted COO array, the entries below row `r` are exactly the
      first `CountBelow(rows, r)` ones. */
  lemma {:induction false} SortedPrefixBelow(rows: seq<int>, r: int, k: int)
    requires forall i, j :: 0 <= i <= j < |rows| ==> rows[i] <= rows[j]
    requires 0 <= k < |rows|
    ensures k < CountBelow(rows, r) <==> rows[k] < r
  {
    var n := |rows| - 1;
    var init := rows[..n];
    if rows[n] < r {
      CountBelowAll(init, r);
    } else if k < n {
      SortedPrefixBelow(init, r, k);
    }
  }

  /** The CSR round trip: for a row-sorted input, the range a row pointer pair
      delimits holds exactly the entries of that row. */
  lemma SortedRowsOccupyRange(rows: seq<int>, r: int, k: int)
    requires forall i, j :: 0 <= i <= j < |rows| ==> rows[i] <= rows[j]
    requires 0 <= k < |rows|
    ensures CountBelow(rows, r) <= k < CountBelow(rows, r + 1) <==> rows[k] == r
  {
    SortedPrefixBelow(rows, r, k);
    SortedPrefixBelow(rows, r + 1, k);
  }

  /** The row pointers `CountBelow(rows, r)` of entries whose rows lie in
      `[0, numRows)` start at 0, end at the entry count, grow by each row's
      count and never decrease. */
  lemma PrefixCounts(rows: seq<int>, numRows: nat)
    requires forall i :: 0 <= i < |rows| ==> 0 <= rows[i] < numRows
    ensures CountBelow(rows, 0) == 0 && CountBelow(rows, numRows) == |rows|
    ensures forall r :: 0 <= r < numRows ==> CountBelow(rows, r + 1) - CountBelow(rows, r) == CountRow(rows, r)
    ensures forall r, r' :: 0 <= r <= r' <= numRows ==> CountBelow(rows, r) <= CountBelow(rows, r')
  {
    CountBelowNone(rows, 0);
    CountBelowAll(rows, numRows);
    forall r | 0 <= r < numRows ensures CountBelow(rows, r + 1) - CountBelow(rows, r) == CountRow(rows, r) {
      CountBelowStep(rows, r);
    }
    forall r, r' | 0 <= r <= r' <= numRows ensures CountBelow(rows, r) <= CountBelow(rows, r') {
      CountBelowMonotone(rows, r, r');
    }
  }

  /** The COO to CSR conversion of `main`: copy the column and value arrays,
      count the entries of each row into `rowPtr[row + 1]`, then turn the
      counts into prefix sums. The prefix loop stops at the last row (the
      original's bound reaches one cell past the allocation; see
      `PrefixSumReadsPastEnd`). */
  method BuildCsr<V>(rowIdx: seq<int>, colIdx: seq<int>, vals: seq<V>, numRows: nat)
    returns (rowPtr: seq<int>, colIndex: seq<int>, values: seq<V>)
    requires |rowIdx| == |colIdx| == |vals|
    requires forall i :: 0 <= i < |rowIdx| ==> 0 <= rowIdx[i] < numRows
    ensures |rowPtr| == numRows + 1
    ensures rowPtr[0] == 0 && rowPtr[numRows] == |rowIdx|
    ensures forall r :: 0 <= r <= numRows ==> rowPtr[r] == CountBelow(rowIdx, r)
    ensures forall r :: 0 <= r < numRows ==> rowPtr[r + 1] - rowPtr[r] == CountRow(rowIdx, r)
    ensures colIndex == colIdx && values == vals
    ensures (forall i :: 0 <= i < |colIdx| ==> 0 <= colIdx[i]) ==> WellFormedCsr(rowPtr, colIndex, numRows)
  {
    var nz := |rowIdx|;
    var ptr := new int[numRows + 1](_ => 0);
    var cols := new int[nz](_ => 0);
    var vs := new V[nz](i requires 0 <= i < nz => vals[i]);
    var i := 0;
    while i < nz
      invariant 0 <= i <= nz
      invariant ptr[0] == 0
      invariant forall r :: 0 <= r < numRows ==> ptr[r + 1] == CountRow(rowIdx[..i], r)
      invariant cols[..i] == colIdx[..i] && vs[..i] == vals[..i]
    {
      CountEntry(ptr, cols, vs, rowIdx, colIdx, vals, numRows, i);
      i := i + 1;
    }
    assert rowIdx[..nz] == rowIdx && colIdx[..nz] == colIdx && vals[..nz] == vals;
    PrefixSum(ptr, rowIdx, numRows);
    rowPtr, colIndex, values := ptr[..], cols[..], vs[..];
    PrefixCounts(rowIdx, numRows);
    assert cols[..] == cols[..nz] && vs[..] == vs[..nz];
  }

  /** One iteration of the counting loop: entry `i`'s column and value are
      copied and its row's count, kept in `ptr[row + 1]`, goes up by one. */
  method CountEntry<V>(ptr: array<int>, cols: array<int>, vs: array<V>, rowIdx: seq<int>, colIdx: seq<int>,
                       vals: seq<V>, numRows: nat, i: nat)
    modifies ptr, cols, vs
    requires ptr != cols && (vs as object) != ptr && (vs as object) != cols
    requires |rowIdx| == |colIdx| == |vals| == cols.Length == vs.Length && ptr.Length == numRows + 1
    requires i < |rowIdx| && 0 <= rowIdx[i] < numRows
    requires ptr[0] == 0 && forall r :: 0 < r <= numRows ==> ptr[r] == CountRow(rowIdx[..i], r - 1)
    requires cols[..i] == colIdx[..i] && vs[..i] == vals[..i]
    ensures ptr[0] == 0 && forall r :: 0 < r <= numRows ==> ptr[r] == CountRow(rowIdx[..i + 1], r - 1)
    ensures cols[..i + 1] == colIdx[..i + 1] && vs[..i + 1] == vals[..i + 1]
  {
    assert rowIdx[..i + 1][..i] == rowIdx[..i];
    cols[i] := colIdx[i];
    vs[i] := vals[i];
    ptr[rowIdx[i] + 1] := ptr[rowIdx[i] + 1] + 1;
  }

  /** The prefix loop of lines 270-271, bounded at the last row: each cell
      `rowPtr[i + 1]`, holding the count of row `i`, becomes the number of
      entries in rows up to `i`. */
  method PrefixSum(ptr: array<int>, ghost rows: seq<int>, numRows: nat)
    modifies ptr
    requires ptr.Length == numRows + 1
    requires forall i :: 0 <= i < |rows| ==> 0 <= rows[i]
    requires ptr[0] == 0 && forall r :: 0 <= r < numRows ==> ptr[r + 1] == CountRow(rows, r)
    ensures forall r :: 0 <= r <= numRows ==> ptr[r] == CountBelow(rows, r)
  {
    CountBelowNone(rows, 0);
    var i := 0;
    while i < numRows
      invariant 0 <= i <= numRows
      invariant forall r :: 0 <= r <= i ==> ptr[r] == CountBelow(rows, r)
      invariant forall r :: i < r <= numRows ==> ptr[r] == CountRow(rows, r - 1)
    {
      CountBelowStep(rows, i);
      ptr[i + 1] := ptr[i + 1] + ptr[i];
      i := i + 1;
    }
  }

  /** The cells `rowPtr[i + 1]` that the prefix loop as written updates, one
      per iteration `i` from 0 up to and including `numRows`. */
  function AsWrittenPrefixTargets(numRows: nat): (t: seq<int>)
    ensures |t| == numRows + 1
  {
    seq(numRows + 1, i => i + 1)
  }

  /** The last iteration of the prefix loop as written updates a cell outside
      the `numRows + 1` cells allocated for `rowPtr`. */
  lemma PrefixSumReadsPastEnd(numRows: nat)
    ensures exists i :: 0 <= i < numRows + 1 && AsWrittenPrefixTargets(numRows)[i] >= numRows + 1
  {
    assert AsWrittenPrefixTargets(numRows)[numRows] == numRows + 1;
  }
}
