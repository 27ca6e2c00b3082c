/** Block geometry shared by the Blocked-ELL stages: block-rows of
    `blockSize` matrix rows, block-columns of `blockSize` matrix columns
    (column `c` lies in block-column `c / blockSize`), and the layout of one
    block-row's slots in the column-index array. */
module Blocks {
  import opened SortedList
  import opened Csr

  /** `ceil(n / blockSize)`, computed as the source does: the quotient, plus
      one when there is a remainder. */
  function CeilDiv(n: nat, blockSize: nat): (m: nat)
    requires blockSize > 0
    ensures n <= m * blockSize < n + blockSize
  {
    var q := n / blockSize;
    assert n == q * blockSize + n % blockSize;
    if n % blockSize != 0 then
      assert (q + 1) * blockSize == q * blockSize + blockSize;
      q + 1
    else q
  }

  lemma MulMonotone(a: int, b: int, n: int)
    requires a <= b && 0 <= n
    ensures a * n <= b * n
  {
  }

  /** A column at or beyond `m` whole blocks lies in block-column `m` or later. */
  lemma DivAtLeast(c: int, m: int, blockSize: int)
    requires blockSize > 0 && m * blockSize <= c
    ensures m <= c / blockSize
  {
    var q := c / blockSize;
    assert c == q * blockSize + c % blockSize;
    if q < m {
      MulMonotone(q + 1, m, blockSize);
    }
  }

  /** A column below `m` whole blocks lies in a block-column below `m`. */
  lemma DivBelow(c: int, m: int, blockSize: int)
    requires blockSize > 0 && c < m * blockSize
    ensures c / blockSize < m
  {
    var q := c / blockSize;
    assert c == q * blockSize + c % blockSize;
    if m <= q {
      MulMonotone(m, q, blockSize);
    }
  }

  /** A multiple of `blockSize` divides back exactly. */
  lemma MulDivCancel(m: int, blockSize: int)
    requires blockSize > 0
    ensures (m * blockSize) / blockSize == m && (m * blockSize) % blockSize == 0
  {
    DivAtLeast(m * blockSize, m, blockSize);
    assert (m + 1) * blockSize == m * blockSize + blockSize;
    DivBelow(m * blockSize, m + 1, blockSize);
  }

  /** There are never more block-rows than rows. */
  lemma CeilDivAtMost(n: nat, blockSize: nat)
    requires blockSize > 0
    ensures CeilDiv(n, blockSize) <= n
  {
    var m := CeilDiv(n, blockSize);
    if m > n {
      MulMonotone(n + 1, m, blockSize);
      MulMonotone(1, blockSize, n);
    }
  }

  /** Row `r` lies in the rows `[blockSize * t, blockSize * t + blockSize)` of
      its block-row `t = r / blockSize`. */
  lemma BlockRowOf(r: int, blockSize: int)
    requires blockSize > 0
    ensures blockSize * (r / blockSize) <= r < blockSize * (r / blockSize) + blockSize
  {
    assert r == (r / blockSize) * blockSize + r % blockSize;
  }

  /** Every block-row below `CeilDiv(numRows, blockSize)` starts at an existing
      matrix row. */
  lemma BlockRowStarts(numRows: nat, blockSize: nat, i: nat)
    requires blockSize > 0 && i < CeilDiv(numRows, blockSize)
    ensures blockSize * i < numRows
  {
    var mb := CeilDiv(numRows, blockSize);
    MulMonotone(i + 1, mb, blockSize);
    assert (i + 1) * blockSize == blockSize * i + blockSize;
  }

  /** The matrix row one past the last row of block-row `i`. */
  function BlockRowEnd(numRows: nat, blockSize: nat, i: nat): (e: nat)
    ensures e <= numRows && e <= blockSize * i + blockSize
    ensures e == numRows || e == blockSize * i + blockSize
  {
    if blockSize * i + blockSize <= numRows then blockSize * i + blockSize else numRows
  }

  /** The distinct block-columns of a run of column indices. */
  function BlockSet(cols: seq<int>, blockSize: int): set<int>
    requires blockSize > 0
  {
    set c | c in cols :: c / blockSize
  }

  lemma BlockSetAppend(cols: seq<int>, c: int, blockSize: int)
    requires blockSize > 0
    ensures BlockSet(cols + [c], blockSize) == BlockSet(cols, blockSize) + {c / blockSize}
  {
    var l := BlockSet(cols + [c], blockSize);
    var r := BlockSet(cols, blockSize) + {c / blockSize};
    forall x | x in l ensures x in r {
      var d :| d in cols + [c] && x == d / blockSize;
      if d != c {
        assert d in cols;
      }
    }
    forall x | x in r ensures x in l {
      if x != c / blockSize {
        var d :| d in cols && x == d / blockSize;
        assert d in cols + [c];
      } else {
        assert c in cols + [c];
      }
    }
  }

  /** The distinct block-columns touched by block-row `i`: those of the
      entries of its matrix rows, which are contiguous in a well-formed CSR. */
  function BlockRowIds(rowPtr: seq<int>, colIndex: seq<int>, numRows: nat, blockSize: nat, i: nat): set<int>
    requires WellFormedCsr(rowPtr, colIndex, numRows) && blockSize > 0
    requires i < CeilDiv(numRows, blockSize)
  {
    BlockRowStarts(numRows, blockSize, i);
    BlockSet(colIndex[rowPtr[blockSize * i]..rowPtr[BlockRowEnd(numRows, blockSize, i)]], blockSize)
  }

  /** The slots of one block-row in the column-index array: the block-columns
      `ids` in strictly ascending order, then the sentinel -1 in every
      remaining slot. */
  predicate ListsBlocks(seg: seq<int>, ids: set<int>)
  {
    |ids| <= |seg| &&
    StrictlyAscending(seg[..|ids|]) &&
    Elements(seg[..|ids|]) == ids &&
    forall j :: |ids| <= j < |seg| ==> seg[j] == -1
  }

  /** `n * w`, as `n` runs of width `w` laid end to end: the start of run
      `n` in an array of runs (slots of a block-row, rows of the value
      array). `TimesIsProduct` ties it to `*`. */
  function Times(n: nat, w: nat): nat
  {
    if n == 0 then 0 else Times(n - 1, w) + w
  }

  lemma {:induction false} TimesIsProduct(n: nat, w: nat)
    ensures Times(n, w) == n * w
  {
    if n > 0 {
      TimesIsProduct(n - 1, w);
    }
  }

  lemma {:induction false} TimesMonotone(a: nat, b: nat, w: nat)
    requires a <= b
    ensures Times(a, w) <= Times(b, w)
  {
    if a < b {
      TimesMonotone(a, b - 1, w);
    }
  }

  /** A position `Times(a, m) + x` with `x < m` names one run `a` and one
      offset `x` in it. */
  lemma {:induction false} TimesRadix(a: nat, x: nat, a': nat, x': nat, m: nat)
    requires x < m && x' < m && Times(a, m) + x == Times(a', m) + x'
    ensures a == a' && x == x'
  {
    if a > 0 && a' > 0 {
      TimesRadix(a - 1, x, a' - 1, x', m);
    }
  }

  /** `c / d` for a non-negative `c`, by repeated subtraction; see
      `QuotRemIsDivMod`. */
  function Quot(c: nat, d: nat): nat
    requires d > 0
    decreases c
  {
    if c < d then 0 else Quot(c - d, d) + 1
  }

  /** `c % d` for a non-negative `c`, by repeated subtraction. */
  function Rem(c: nat, d: nat): nat
    requires d > 0
    decreases c
  {
    if c < d then c else Rem(c - d, d)
  }

  lemma {:induction false} QuotRemSplit(c: nat, d: nat)
    requires d > 0
    ensures c == Times(Quot(c, d), d) + Rem(c, d) && Rem(c, d) < d
    decreases c
  {
    if c >= d {
      QuotRemSplit(c - d, d);
    }
  }

  lemma QuotRemIsDivMod(c: nat, d: nat)
    requires d > 0
    ensures Quot(c, d) == c / d && Rem(c, d) == c % d
  {
    var q := Quot(c, d);
    QuotRemSplit(c, d);
    TimesIsProduct(q, d);
    DivAtLeast(c, q, d);
    assert (q + 1) * d == q * d + d;
    DivBelow(c, q + 1, d);
    assert c == (c / d) * d + c % d;
  }

  /** The slots `[t * nb, t * nb + nb)` of block-row `t`, or none when the
      array is too short to hold them. */
  function BlockRowSlots(columns: seq<int>, t: int, nb: int): seq<int>
  {
    if 0 <= t && 0 <= nb && Times(t, nb) + nb <= |columns| then columns[Times(t, nb)..Times(t, nb) + nb] else []
  }

  /** The Blocked-ELL column-index array: `nb` slots for each block-row, and
      block-row `t`'s slots list its block-columns in strictly ascending
      order followed by -1 padding. */
  ghost predicate ListsEveryBlockRow(columns: seq<int>, rowPtr: seq<int>, colIndex: seq<int>, numRows: nat,
                                     blockSize: nat, nb: nat)
    requires WellFormedCsr(rowPtr, colIndex, numRows) && blockSize > 0
  {
    |columns| == CeilDiv(numRows, blockSize) * nb &&
    forall t :: 0 <= t < CeilDiv(numRows, blockSize) ==>
      ListsBlocks(BlockRowSlots(columns, t, nb), BlockRowIds(rowPtr, colIndex, numRows, blockSize, t))
  }

  /** Segments laid end to end, as the column-index array stores block-rows. */
  function Concat(segs: seq<seq<int>>): seq<int>
  {
    if segs == [] then [] else Concat(segs[..|segs| - 1]) + segs[|segs| - 1]
  }

  lemma ConcatAppend(segs: seq<seq<int>>, seg: seq<int>)
    ensures Concat(segs + [seg]) == Concat(segs) + seg
  {
    assert (segs + [seg])[..|segs|] == segs;
  }

  /** With segments of a common length `nb`, segment `i` sits at
      `[i * nb, i * nb + nb)`. */
  lemma {:induction false} ConcatSegment(segs: seq<seq<int>>, nb: nat, i: nat)
    requires forall j :: 0 <= j < |segs| ==> |segs[j]| == nb
    requires i < |segs|
    ensures |Concat(segs)| == |segs| * nb
    ensures i * nb + nb <= |Concat(segs)| && Concat(segs)[i * nb..i * nb + nb] == segs[i]
  {
    var n := |segs| - 1;
    var init := segs[..n];
    if i < n {
      ConcatSegment(init, nb, i);
    } else if n > 0 {
      ConcatSegment(init, nb, 0);
    }
    assert |Concat(segs)| == n * nb + nb;
  }
}
