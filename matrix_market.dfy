/** Loading the coordinate entries of a Matrix Market file, as `main` does:
    the four-character type code chooses between copying the entries and
    expanding a symmetric matrix's stored half into both halves. The file
    reading itself is left to the caller, who supplies the entries as
    read (1-based, with a value unless the matrix is a pattern). */
module MatrixMarket {

  datatype Option<T> = None | Some(value: T)

  /** What `main` does with a type code: copy the entries, or add the
      mirror of every off-diagonal entry. */
  datatype Path = CopyPath | ExpandPath

  /** One coordinate entry. */
  datatype Entry<V> = Entry(row: int, col: int, val: V)

  /** The type-code dispatch of lines 184, 209 and 249-253: general
      coordinate matrices of the four value kinds (real, integer, pattern,
      complex) are copied; symmetric ones of the four kinds, Hermitian
      complex and skew-symmetric real ones are expanded; every other code,
      array formats among them, is refused. */
  function Dispatch(code: string): (p: Option<Path>)
    requires |code| == 4
    ensures p == Some(CopyPath) <==> code[0] == 'M' && code[1] == 'C' && code[2] in "RIPC" && code[3] == 'G'
    ensures p == Some(ExpandPath) <==>
      code[0] == 'M' && code[1] == 'C' &&
      ((code[2] in "RIPC" && code[3] == 'S') || (code[2] == 'C' && code[3] == 'H') || (code[2] == 'R' && code[3] == 'K'))
    ensures code[1] != 'C' ==> p == None
  {
    if code == "MCRG" || code == "MCIG" || code == "MCPG" || code == "MCCG" then Some(CopyPath)
    else if code == "MCRS" || code == "MCIS" || code == "MCPS" || code == "MCCS" || code == "MCCH" || code == "MCRK"
            || (code[0] == 'M' && code[1] == 'C' && code[2] == 'P' && code[3] == 'S') then Some(ExpandPath)
    else None
  }

  /** A pattern matrix stores positions only. */
  predicate IsPattern(code: string)
    requires |code| == 4
  {
    code[2] == 'P'
  }

  /** An entry as stored: shifted from 1-based to 0-based, with the value 1
      (`one`) in a pattern matrix. */
  function Loaded<V>(e: Entry<V>, pattern: bool, one: V): (l: Entry<V>)
    ensures l.row == e.row - 1 && l.col == e.col - 1
    ensures l.val == if pattern then one else e.val
  {
    Entry(e.row - 1, e.col - 1, if pattern then one else e.val)
  }

  function LoadAll<V>(input: seq<Entry<V>>, pattern: bool, one: V): (es: seq<Entry<V>>)
    ensures |es| == |input| && forall i :: 0 <= i < |input| ==> es[i] == Loaded(input[i], pattern, one)
  {
    if input == [] then [] else LoadAll(input[..|input| - 1], pattern, one) + [Loaded(input[|input| - 1], pattern, one)]
  }

  predicate OffDiagonal<V>(e: Entry<V>)
  {
    e.row != e.col
  }

  /** The entry at the transposed position, with the value `flip` gives. */
  function Mirror<V>(e: Entry<V>, flip: V -> V): Entry<V>
  {
    Entry(e.col, e.row, flip(e.val))
  }

  /** The mirrors of the off-diagonal entries, in input order. */
  function Mirrors<V>(es: seq<Entry<V>>, flip: V -> V): seq<Entry<V>>
  {
    if es == [] then []
    else
      var e := es[|es| - 1];
      Mirrors(es[..|es| - 1], flip) + (if OffDiagonal(e) then [Mirror(e, flip)] else [])
  }

  /** The number of off-diagonal entries. */
  function OffDiagonalCount<V>(es: seq<Entry<V>>): nat
  {
    if es == [] then 0
    else OffDiagonalCount(es[..|es| - 1]) + (if OffDiagonal(es[|es| - 1]) then 1 else 0)
  }

  /** The value a mirrored entry gets. The source copies it for every code;
      a skew-symmetric matrix's mirror is the negated value (see
      `SkewMirrorKeepsSign`), so `MCRK` mirrors are negated here. */
  function MirrorValue<V>(code: string, negate: V -> V): (flip: V -> V)
    requires |code| == 4
    ensures code == "MCRK" ==> flip == negate
  {
    if code == "MCRK" then negate else v => v
  }

  /** Every other code keeps the value in the mirror. */
  lemma MirrorValueCopies<V>(code: string, negate: V -> V, v: V)
    requires |code| == 4 && code != "MCRK"
    ensures MirrorValue(code, negate)(v) == v
  {
  }

  /** The entries `main` leaves in its triplet arrays: the stored ones,
      then (on the expansion path) the mirrors. */
  function Expand<V>(es: seq<Entry<V>>, flip: V -> V): seq<Entry<V>>
  {
    es + Mirrors(es, flip)
  }

  /** Three parallel arrays read as entries. */
  function Entries<V>(rows: seq<int>, cols: seq<int>, vals: seq<V>): (es: seq<Entry<V>>)
    requires |rows| == |cols| == |vals|
    ensures |es| == |rows| && forall i :: 0 <= i < |rows| ==> es[i] == Entry(rows[i], cols[i], vals[i])
  {
    seq(|rows|, i requires 0 <= i < |rows| => Entry(rows[i], cols[i], vals[i]))
  }

  /** Lines 184-253 of `main`: dispatch on the type code, then load the
      entries by copying or by expanding them. `supported` is false, and
      nothing is loaded, when the type code is refused. */
  method LoadCoo<V>(code: string, input: seq<Entry<V>>, zero: V, one: V, negate: V -> V)
    returns (supported: bool, rows: seq<int>, cols: seq<int>, vals: seq<V>)
    requires |code| == 4
    ensures supported <==> Dispatch(code).Some?
    ensures |rows| == |cols| == |vals|
    ensures !supported ==> rows == [] && cols == [] && vals == []
    ensures Dispatch(code) == Some(CopyPath) ==> Entries(rows, cols, vals) == LoadAll(input, IsPattern(code), one)
    ensures Dispatch(code) == Some(ExpandPath) ==>
      Entries(rows, cols, vals) == Expand(LoadAll(input, IsPattern(code), one), MirrorValue(code, negate))
  {
    var path := Dispatch(code);
    if path == Some(CopyPath) {
      supported := true;
      rows, cols, vals := LoadGeneral(input, IsPattern(code), zero, one);
    } else if path == Some(ExpandPath) {
      supported := true;
      rows, cols, vals := LoadSymmetric(input, IsPattern(code), zero, one, MirrorValue(code, negate));
    } else {
      supported, rows, cols, vals := false, [], [], [];
    }
  }

  /** The copy path (lines 186-204): read each entry into `I`, `J`, `V`
      and shift it to 0-based. `zero` is the value the cleared allocation
      holds. */
  method LoadGeneral<V>(input: seq<Entry<V>>, pattern: bool, zero: V, one: V)
    returns (rows: seq<int>, cols: seq<int>, vals: seq<V>)
    ensures |rows| == |cols| == |vals|
    ensures Entries(rows, cols, vals) == LoadAll(input, pattern, one)
  {
    ghost var es := LoadAll(input, pattern, one);
    var nz := |input|;
    var I := new int[nz];
    var J := new int[nz];
    var V := new V[nz](_ => zero);
    var i := 0;
    while i < nz
      invariant 0 <= i <= nz
      invariant forall p :: 0 <= p < i ==> Entry(I[p], J[p], V[p]) == es[p]
    {
      var e := input[i];
      I[i] := e.row;
      J[i] := e.col;
      if pattern {
        V[i] := one;
      } else {
        V[i] := e.val;
      }
      I[i] := I[i] - 1;
      J[i] := J[i] - 1;
      i := i + 1;
    }
    rows, cols, vals := I[..], J[..], V[..];
    assert Entries(rows, cols, vals) == es;
  }

  /** The expansion path (lines 211-247): read each entry as on the copy
      path, and write the mirror of each off-diagonal one at `nz + iIndex`,
      with the value `flip` gives; `nz` then grows by `iIndex`. */
  method LoadSymmetric<V>(input: seq<Entry<V>>, pattern: bool, zero: V, one: V, flip: V -> V)
    returns (rows: seq<int>, cols: seq<int>, vals: seq<V>)
    ensures |rows| == |cols| == |vals|
    ensures Entries(rows, cols, vals) == Expand(LoadAll(input, pattern, one), flip)
  {
    ghost var es := LoadAll(input, pattern, one);
    var nz := |input|;
    var I := new int[2 * nz];
    var J := new int[2 * nz];
    var V := new V[2 * nz](_ => zero);
    var iIndex := 0;
    var i := 0;
    ProgressStart(I[..], J[..], V[..], es, flip);
    while i < nz
      invariant 0 <= i <= nz && iIndex == |Mirrors(es[..i], flip)|
      invariant Progress(I[..], J[..], V[..], es, i, flip)
    {
      iIndex := StoreEntry(I, J, V, es, nz, i, iIndex, flip, input[i], pattern, one);
      i := i + 1;
    }
    rows, cols, vals := Expanded(I, J, V, es, flip, nz + iIndex);
  }

  /** The first `nz + iIndex` triplets once the loop is done (line 247):
      the expansion of the entries read. */
  method Expanded<V>(I: array<int>, J: array<int>, V: array<V>, ghost es: seq<Entry<V>>, flip: V -> V, m: int)
    returns (rows: seq<int>, cols: seq<int>, vals: seq<V>)
    requires Progress(I[..], J[..], V[..], es, |es|, flip) && m == |es| + |Mirrors(es[..|es|], flip)|
    ensures |rows| == |cols| == |vals|
    ensures Entries(rows, cols, vals) == Expand(es, flip)
  {
    ProgressDone(I[..], J[..], V[..], es, flip, m);
    rows, cols, vals := I[..m], J[..m], V[..m];
  }

  /** One iteration of the expansion loop (lines 220-245): entry `i` is
      written at `i`, shifted to 0-based, and, off the diagonal, its mirror
      at `nz + iIndex`, which then moves on. */
  method StoreEntry<V>(I: array<int>, J: array<int>, V: array<V>, ghost es: seq<Entry<V>>, nz: int, i: int,
                       iIndex: int, flip: V -> V, e: Entry<V>, pattern: bool, one: V)
    returns (next: int)
    requires I != J && (V as object) != I && (V as object) != J
    requires Progress(I[..], J[..], V[..], es, i, flip) && nz == |es| && i < nz && es[i] == Loaded(e, pattern, one)
    requires iIndex == |Mirrors(es[..i], flip)|
    modifies I, J, V
    ensures Progress(I[..], J[..], V[..], es, i + 1, flip) && next == |Mirrors(es[..i + 1], flip)|
  {
    ghost var I0, J0, V0 := I[..], J[..], V[..];
    var r, c := e.row - 1, e.col - 1;
    var v := if pattern then one else e.val;
    var w := flip(v);
    Store(I, J, V, i, r, c, v);
    if r != c {
      Store(I, J, V, nz + iIndex, c, r, w);
      next := iIndex + 1;
    } else {
      next := iIndex;
    }
    LoadStep(I0, J0, V0, I[..], J[..], V[..], es, i, flip, r, c, v, w);
  }

  /** One entry written to slot `q` of the triplet arrays. */
  method Store<V>(I: array<int>, J: array<int>, V: array<V>, q: int, r: int, c: int, v: V)
    requires 0 <= q < I.Length && q < J.Length && q < V.Length
    requires I != J && (V as object) != I && (V as object) != J
    modifies I, J, V
    ensures I[..] == old(I[..])[q := r] && J[..] == old(J[..])[q := c] && V[..] == old(V[..])[q := v]
  {
    I[q] := r;
    J[q] := c;
    V[q] := v;
  }

  /** The slots `from..from + |es|` of three parallel arrays hold `es`. */
  ghost predicate Holds<V>(rows: seq<int>, cols: seq<int>, vals: seq<V>, from: int, es: seq<Entry<V>>)
  {
    if es == [] then 0 <= from <= |rows| && from <= |cols| && from <= |vals|
    else
      var n := |es| - 1;
      Holds(rows, cols, vals, from, es[..n]) &&
      0 <= from && from + n < |rows| && from + n < |cols| && from + n < |vals| &&
      Entry(rows[from + n], cols[from + n], vals[from + n]) == es[n]
  }

  lemma {:induction false} HoldsAt<V>(rows: seq<int>, cols: seq<int>, vals: seq<V>, from: int, es: seq<Entry<V>>, p: int)
    requires Holds(rows, cols, vals, from, es) && 0 <= p < |es|
    ensures 0 <= from && from + |es| <= |rows| && from + |es| <= |cols| && from + |es| <= |vals|
    ensures Entry(rows[from + p], cols[from + p], vals[from + p]) == es[p]
  {
    var n := |es| - 1;
    if p < n {
      HoldsAt(rows, cols, vals, from, es[..n], p);
    } else if n > 0 {
      HoldsAt(rows, cols, vals, from, es[..n], 0);
    }
  }

  lemma {:induction false} HoldsWrite<V>(rows: seq<int>, cols: seq<int>, vals: seq<V>, from: int, es: seq<Entry<V>>,
                      q: int, r: int, c: int, v: V)
    requires Holds(rows, cols, vals, from, es)
    requires 0 <= q < |rows| && q < |cols| && q < |vals| && (q < from || from + |es| <= q)
    ensures Holds(rows[q := r], cols[q := c], vals[q := v], from, es)
  {
    if es != [] {
      HoldsWrite(rows, cols, vals, from, es[..|es| - 1], q, r, c, v);
    }
  }

  lemma HoldsExtend<V>(rows: seq<int>, cols: seq<int>, vals: seq<V>, from: int, es: seq<Entry<V>>,
                       r: int, c: int, v: V)
    requires Holds(rows, cols, vals, from, es)
    requires from + |es| < |rows| && from + |es| < |cols| && from + |es| < |vals|
    ensures var q := from + |es|;
      Holds(rows[q := r], cols[q := c], vals[q := v], from, es + [Entry(r, c, v)])
  {
    var q := from + |es|;
    HoldsWrite(rows, cols, vals, from, es, q, r, c, v);
    assert (es + [Entry(r, c, v)])[..|es|] == es;
  }

  lemma HoldsJoin<V>(rows: seq<int>, cols: seq<int>, vals: seq<V>, n: int, es: seq<Entry<V>>, ms: seq<Entry<V>>)
    requires n == |es| && Holds(rows, cols, vals, 0, es) && Holds(rows, cols, vals, n, ms)
    ensures var m := n + |ms|;
      m <= |rows| && m <= |cols| && m <= |vals| &&
      Entries(rows[..m], cols[..m], vals[..m]) == es + ms
  {
    var m := n + |ms|;
    if ms != [] {
      HoldsAt(rows, cols, vals, n, ms, 0);
    } else if es != [] {
      HoldsAt(rows, cols, vals, 0, es, 0);
    }
    forall p | 0 <= p < m
      ensures Entry(rows[p], cols[p], vals[p]) == (es + ms)[p]
    {
      if p < n {
        HoldsAt(rows, cols, vals, 0, es, p);
      } else {
        HoldsAt(rows, cols, vals, n, ms, p - n);
      }
    }
  }

  /** After `i` entries of `es`: the slots from 0 hold them, and the slots
      from `|es|` hold their mirrors. */
  ghost predicate Progress<V>(rows: seq<int>, cols: seq<int>, vals: seq<V>, es: seq<Entry<V>>, i: int, flip: V -> V)
  {
    0 <= i <= |es| && |rows| == |cols| == |vals| == 2 * |es| && |Mirrors(es[..i], flip)| <= i &&
    Holds(rows, cols, vals, 0, es[..i]) && Holds(rows, cols, vals, |es|, Mirrors(es[..i], flip))
  }

  /** At most one mirror per entry, so the expansion keeps the entries read
      at their own indices and fits in the `2 * nz` cells allocated at
      lines 212-214. */
  lemma {:induction false} ExpandFits<V>(es: seq<Entry<V>>, flip: V -> V)
    ensures |Mirrors(es, flip)| <= |es|
    ensures |es| <= |Expand(es, flip)| <= 2 * |es| && Expand(es, flip)[..|es|] == es
  {
    if es != [] {
      ExpandFits(es[..|es| - 1], flip);
    }
  }

  /** Before the loop nothing is stored, and nothing needs to be. */
  lemma ProgressStart<V>(rows: seq<int>, cols: seq<int>, vals: seq<V>, es: seq<Entry<V>>, flip: V -> V)
    requires |rows| == |cols| == |vals| == 2 * |es|
    ensures Progress(rows, cols, vals, es, 0, flip)
  {
    assert es[..0] == [];
  }

  /** After the loop the first `|es| + |Mirrors(es, flip)|` slots hold the
      expansion. */
  lemma ProgressDone<V>(rows: seq<int>, cols: seq<int>, vals: seq<V>, es: seq<Entry<V>>, flip: V -> V, m: int)
    requires Progress(rows, cols, vals, es, |es|, flip) && m == |es| + |Mirrors(es[..|es|], flip)|
    ensures 0 <= m <= |rows| && m <= |cols| && m <= |vals|
    ensures Entries(rows[..m], cols[..m], vals[..m]) == Expand(es, flip)
  {
    assert es[..|es|] == es;
    HoldsJoin(rows, cols, vals, |es|, es, Mirrors(es, flip));
  }

  /** One iteration of the expansion loop: entry `i` stored at `i` and, when
      off the diagonal, its mirror stored after the mirrors so far. */
  lemma LoadStep<V>(rows: seq<int>, cols: seq<int>, vals: seq<V>, rows': seq<int>, cols': seq<int>, vals': seq<V>,
                    es: seq<Entry<V>>, i: int, flip: V -> V, r: int, c: int, v: V, w: V)
    requires Progress(rows, cols, vals, es, i, flip) && i < |es| && es[i] == Entry(r, c, v) && w == flip(v)
    requires var q := |es| + |Mirrors(es[..i], flip)|;
      if r != c then rows' == rows[i := r][q := c] && cols' == cols[i := c][q := r] && vals' == vals[i := v][q := w]
      else rows' == rows[i := r] && cols' == cols[i := c] && vals' == vals[i := v]
    ensures Progress(rows', cols', vals', es, i + 1, flip)
    ensures |Mirrors(es[..i + 1], flip)| == |Mirrors(es[..i], flip)| + if r != c then 1 else 0
  {
    if r != c {
      LoadStepOff(rows, cols, vals, es, i, flip, |es| + |Mirrors(es[..i], flip)|, r, c, v, w);
    } else {
      LoadStepDiagonal(rows, cols, vals, es, i, flip, r, c, v);
    }
  }

  /** Storing a diagonal entry at `i` extends the stored entries and
      leaves the mirrors as they are. */
  lemma LoadStepDiagonal<V>(rows: seq<int>, cols: seq<int>, vals: seq<V>, es: seq<Entry<V>>, i: int, flip: V -> V,
                             r: int, c: int, v: V)
    requires 0 <= i < |es| && |rows| == |cols| == |vals| == 2 * |es| && es[i] == Entry(r, c, v) && r == c
    requires Holds(rows, cols, vals, 0, es[..i]) && Holds(rows, cols, vals, |es|, Mirrors(es[..i], flip))
    requires |Mirrors(es[..i], flip)| <= i
    ensures Holds(rows[i := r], cols[i := c], vals[i := v], 0, es[..i + 1])
    ensures Holds(rows[i := r], cols[i := c], vals[i := v], |es|, Mirrors(es[..i + 1], flip))
    ensures |Mirrors(es[..i + 1], flip)| == |Mirrors(es[..i], flip)|
  {
    MirrorsStep(es, i, flip);
    assert Mirrors(es[..i + 1], flip) == Mirrors(es[..i], flip);
    assert es[..i + 1] == es[..i] + [es[i]];
    HoldsExtend(rows, cols, vals, 0, es[..i], r, c, v);
    HoldsWrite(rows, cols, vals, |es|, Mirrors(es[..i], flip), i, r, c, v);
  }

  /** Storing an off-diagonal entry at `i` and its mirror after the mirrors
      so far extends both. */
  lemma LoadStepOff<V>(rows: seq<int>, cols: seq<int>, vals: seq<V>, es: seq<Entry<V>>, i: int, flip: V -> V,
                        q: int, r: int, c: int, v: V, w: V)
    requires 0 <= i < |es| && |rows| == |cols| == |vals| == 2 * |es| && es[i] == Entry(r, c, v) && r != c
    requires w == flip(v)
    requires Holds(rows, cols, vals, 0, es[..i]) && Holds(rows, cols, vals, |es|, Mirrors(es[..i], flip))
    requires |Mirrors(es[..i], flip)| <= i && q == |es| + |Mirrors(es[..i], flip)|
    ensures Holds(rows[i := r][q := c], cols[i := c][q := r], vals[i := v][q := w], 0, es[..i + 1])
    ensures Holds(rows[i := r][q := c], cols[i := c][q := r], vals[i := v][q := w], |es|, Mirrors(es[..i + 1], flip))
    ensures |Mirrors(es[..i + 1], flip)| == |Mirrors(es[..i], flip)| + 1
  {
    var ms := Mirrors(es[..i], flip);
    MirrorsStep(es, i, flip);
    assert es[..i + 1] == es[..i] + [es[i]];
    HoldsExtend(rows, cols, vals, 0, es[..i], r, c, v);
    HoldsWrite(rows, cols, vals, |es|, ms, i, r, c, v);
    var r1, c1, v1 := rows[i := r], cols[i := c], vals[i := v];
    HoldsExtend(r1, c1, v1, |es|, ms, c, r, w);
    HoldsWrite(r1, c1, v1, 0, es[..i + 1], q, c, r, w);
  }

  /** Taking one more entry adds its mirror, if it is off the diagonal. */
  lemma MirrorsStep<V>(es: seq<Entry<V>>, i: int, flip: V -> V)
    requires 0 <= i < |es|
    ensures Mirrors(es[..i + 1], flip) ==
      Mirrors(es[..i], flip) + (if OffDiagonal(es[i]) then [Mirror(es[i], flip)] else [])
  {
    assert es[..i + 1][..i] == es[..i];
  }

  /** There is one mirror per off-diagonal entry, so the final `nz` is the
      number read plus the number of off-diagonal entries. */
  lemma {:induction false} MirrorsCount<V>(es: seq<Entry<V>>, flip: V -> V)
    ensures |Mirrors(es, flip)| == OffDiagonalCount(es)
    ensures |Expand(es, flip)| == |es| + OffDiagonalCount(es)
  {
    if es != [] {
      MirrorsCount(es[..|es| - 1], flip);
    }
  }

  /** The mirror of the `i`-th entry, when it is off the diagonal, sits at
      `|es|` plus the number of off-diagonal entries before it. */
  lemma {:induction false} MirrorAt<V>(es: seq<Entry<V>>, flip: V -> V, i: int)
    requires 0 <= i < |es| && OffDiagonal(es[i])
    ensures |es| + OffDiagonalCount(es[..i]) < |Expand(es, flip)|
    ensures Expand(es, flip)[|es| + OffDiagonalCount(es[..i])] == Mirror(es[i], flip)
  {
    MirrorsPrefix(es, flip, i);
    MirrorsCount(es[..i], flip);
  }

  /** The mirrors of a prefix, followed by the mirror of the next entry,
      start the mirrors of the whole sequence. */
  lemma {:induction false} MirrorsPrefix<V>(es: seq<Entry<V>>, flip: V -> V, i: int)
    requires 0 <= i < |es| && OffDiagonal(es[i])
    ensures Mirrors(es[..i], flip) + [Mirror(es[i], flip)] <= Mirrors(es, flip)
  {
    var n := |es| - 1;
    if i == n {
      assert es[..n] == es[..i];
    } else {
      assert es[..n][..i] == es[..i] && es[..n][i] == es[i];
      MirrorsPrefix(es[..n], flip, i);
    }
  }

  /** Every mirror is an off-diagonal entry's mirror, so no diagonal entry
      is ever added: each appears once, as stored. */
  lemma {:induction false} MirrorsOf<V>(es: seq<Entry<V>>, flip: V -> V, m: Entry<V>)
    requires m in Mirrors(es, flip)
    ensures OffDiagonal(m)
    ensures exists e :: e in es && OffDiagonal(e) && m == Mirror(e, flip)
  {
    var n := |es| - 1;
    var e := es[n];
    if m in Mirrors(es[..n], flip) {
      MirrorsOf(es[..n], flip, m);
      var d :| d in es[..n] && OffDiagonal(d) && m == Mirror(d, flip);
      assert d in es;
    } else {
      assert m == Mirror(e, flip);
    }
  }

  /** Every off-diagonal entry's mirror is added. */
  lemma MirrorsHave<V>(es: seq<Entry<V>>, flip: V -> V, e: Entry<V>)
    requires e in es && OffDiagonal(e)
    ensures Mirror(e, flip) in Mirrors(es, flip)
  {
    var i :| 0 <= i < |es| && es[i] == e;
    MirrorsPrefix(es, flip, i);
    assert Mirrors(es, flip)[|Mirrors(es[..i], flip)|] == Mirror(e, flip);
  }

  /** The expansion completes the matrix: for every entry off the diagonal,
      the entry at the transposed position with the `flip`ped value is
      there too, when `flip` undoes itself (copying for a symmetric or
      Hermitian matrix, negating for a skew-symmetric one). */
  lemma ExpandComplete<V>(es: seq<Entry<V>>, flip: V -> V, e: Entry<V>)
    requires forall v :: flip(flip(v)) == v
    requires e in Expand(es, flip) && OffDiagonal(e)
    ensures Mirror(e, flip) in Expand(es, flip)
  {
    if e in es {
      MirrorsHave(es, flip, e);
    } else {
      MirrorsOf(es, flip, e);
      var d :| d in es && OffDiagonal(d) && e == Mirror(d, flip);
      assert Mirror(e, flip) == d;
    }
  }

  /** In a pattern matrix every loaded value is 1. */
  lemma PatternValuesAreOne<V>(input: seq<Entry<V>>, one: V, e: Entry<V>)
    requires e in Expand(LoadAll(input, true, one), v => v)
    ensures e.val == one
  {
    var es := LoadAll(input, true, one);
    if e !in es {
      MirrorsOf(es, v => v, e);
    }
  }

  /** The source copies the value into the mirror of a skew-symmetric
      (`MCRK`) entry: the entry (2, 1) = 3 of a 2 x 2 skew matrix is
      completed by (1, 2) = 3 where the matrix holds -3. */
  lemma SkewMirrorKeepsSign()
    ensures Dispatch("MCRK") == Some(ExpandPath)
    ensures Expand(LoadAll([Entry(2, 1, 3)], false, 1), v => v) == [Entry(1, 0, 3), Entry(0, 1, 3)]
    ensures Entry(0, 1, -3) !in Expand(LoadAll([Entry(2, 1, 3)], false, 1), v => v)
    ensures Expand(LoadAll([Entry(2, 1, 3)], false, 1), MirrorValue("MCRK", v => -v)) == [Entry(1, 0, 3), Entry(0, 1, -3)]
  {
    var es := LoadAll([Entry(2, 1, 3)], false, 1);
    assert es == [Entry(1, 0, 3)];
    assert es[..0] == [];
  }
}
