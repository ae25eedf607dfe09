/**
  Value-level description of ML's compressed sparse row (CSR) and modified
  sparse row (MSR) layouts, and the reference meaning of the kernels that
  work on them.

  CSR: row i owns the slots [rowptr[i], rowptr[i+1]) of `columns`/`values`.
  MSR: one array `bindx` holds both the row pointers and the column indices.
  bindx[0..nrows] are row pointers, row i's off-diagonal entries sit in the
  slots [bindx[i], bindx[i+1]) of `bindx` (column) and `val` (value), and
  the diagonal of row i is stored apart, in val[i].
*/
module MatFormatsSpec {

  /** One stored nonzero: its column and its value. */
  datatype Entry = Entry(col: int, val: real)

  function Cols(es: seq<Entry>): (r: seq<int>)
    ensures |r| == |es| && forall k :: 0 <= k < |es| ==> r[k] == es[k].col
  {
    if es == [] then [] else Cols(es[..|es| - 1]) + [es[|es| - 1].col]
  }

  function Vals(es: seq<Entry>): (r: seq<real>)
    ensures |r| == |es| && forall k :: 0 <= k < |es| ==> r[k] == es[k].val
  {
    if es == [] then [] else Vals(es[..|es| - 1]) + [es[|es| - 1].val]
  }

  /** The sign table of the "cheap" cCSR format: code 0, 1, 2 stands for 0, 1, -1. */
  function Sgn(code: int): real
    requires 0 <= code < 3
  {
    if code == 0 then 0.0 else if code == 1 then 1.0 else -1.0
  }

  function SignValues(codes: seq<int>): (r: seq<real>)
    requires forall k :: 0 <= k < |codes| ==> 0 <= codes[k] < 3
    ensures |r| == |codes| && forall k :: 0 <= k < |codes| ==> r[k] == Sgn(codes[k])
  {
    if codes == [] then [] else SignValues(codes[..|codes| - 1]) + [Sgn(codes[|codes| - 1])]
  }

  // ---------------------------------------------------------------------
  // Row ranges

  /** Row `row` has a well-formed slot range inside arrays of length `len`. */
  predicate RowRange(ptr: seq<int>, len: int, row: int)
  {
    0 <= row && row + 1 < |ptr| && 0 <= ptr[row] <= ptr[row + 1] <= len
  }

  /** The first `nrows` rows of a pointer array are well formed and stay inside `len`. */
  predicate Pointers(ptr: seq<int>, nrows: int, len: int)
  {
    0 <= nrows < |ptr| && 0 <= ptr[0] && ptr[nrows] <= len &&
    forall i, j :: 0 <= i <= j <= nrows ==> ptr[i] <= ptr[j]
  }

  /** Every column index in the slots [lo, hi) addresses a vector of length n. */
  predicate ColumnsIn(cols: seq<int>, lo: int, hi: int, n: int)
  {
    0 <= lo <= hi <= |cols| && forall k :: lo <= k < hi ==> 0 <= cols[k] < n
  }

  // ---------------------------------------------------------------------
  // Dot products over a slot range, summed in storage order

  /** One product term, kept as a named function so that sums of products
      are compared term by term. */
  function Times(x: real, d: real): real
  {
    x * d
  }

  /** Sum of vals[k] * p[cols[k]] over the slots [lo, hi). */
  function Dot(cols: seq<int>, vals: seq<real>, p: seq<real>, lo: int, hi: int): real
    requires ColumnsIn(cols, lo, hi, |p|) && hi <= |vals|
    decreases hi - lo
  {
    if lo == hi then 0.0 else Dot(cols, vals, p, lo, hi - 1) + Times(vals[hi - 1], p[cols[hi - 1]])
  }

  /** Sum of p[cols[k]] over the slots [lo, hi): the product with an all-ones pattern. */
  function OnesDot(cols: seq<int>, p: seq<real>, lo: int, hi: int): real
    requires ColumnsIn(cols, lo, hi, |p|)
    decreases hi - lo
  {
    if lo == hi then 0.0 else OnesDot(cols, p, lo, hi - 1) + p[cols[hi - 1]]
  }

  /** Sum of e.val * p[e.col] over a list of entries. */
  function EntryDot(es: seq<Entry>, p: seq<real>): real
    requires forall k :: 0 <= k < |es| ==> 0 <= es[k].col < |p|
  {
    if es == [] then 0.0 else EntryDot(es[..|es| - 1], p) + Times(es[|es| - 1].val, p[es[|es| - 1].col])
  }

  /** Ten consecutive terms of Dot, added in one step as the unrolled loop of MSR_matvec does. */
  lemma {:induction false} DotStep10(cols: seq<int>, vals: seq<real>, p: seq<real>, lo: int, j: int)
    requires lo <= j && ColumnsIn(cols, lo, j + 10, |p|) && j + 10 <= |vals|
    ensures Dot(cols, vals, p, lo, j + 10) ==
      Dot(cols, vals, p, lo, j) +
      (Times(vals[j + 9], p[cols[j + 9]]) + Times(vals[j + 8], p[cols[j + 8]]) + Times(vals[j + 7], p[cols[j + 7]]) +
       Times(vals[j + 6], p[cols[j + 6]]) + Times(vals[j + 5], p[cols[j + 5]]) + Times(vals[j + 4], p[cols[j + 4]]) +
       Times(vals[j + 3], p[cols[j + 3]]) + Times(vals[j + 2], p[cols[j + 2]]) + Times(vals[j + 1], p[cols[j + 1]]) +
       Times(vals[j], p[cols[j]]))
  {
    assert Dot(cols, vals, p, lo, j + 10) == Dot(cols, vals, p, lo, j + 9) + Times(vals[j + 9], p[cols[j + 9]]);
    assert Dot(cols, vals, p, lo, j + 9) == Dot(cols, vals, p, lo, j + 8) + Times(vals[j + 8], p[cols[j + 8]]);
    assert Dot(cols, vals, p, lo, j + 8) == Dot(cols, vals, p, lo, j + 7) + Times(vals[j + 7], p[cols[j + 7]]);
    assert Dot(cols, vals, p, lo, j + 7) == Dot(cols, vals, p, lo, j + 6) + Times(vals[j + 6], p[cols[j + 6]]);
    assert Dot(cols, vals, p, lo, j + 6) == Dot(cols, vals, p, lo, j + 5) + Times(vals[j + 5], p[cols[j + 5]]);
    assert Dot(cols, vals, p, lo, j + 5) == Dot(cols, vals, p, lo, j + 4) + Times(vals[j + 4], p[cols[j + 4]]);
    assert Dot(cols, vals, p, lo, j + 4) == Dot(cols, vals, p, lo, j + 3) + Times(vals[j + 3], p[cols[j + 3]]);
    assert Dot(cols, vals, p, lo, j + 3) == Dot(cols, vals, p, lo, j + 2) + Times(vals[j + 2], p[cols[j + 2]]);
    assert Dot(cols, vals, p, lo, j + 2) == Dot(cols, vals, p, lo, j + 1) + Times(vals[j + 1], p[cols[j + 1]]);
    assert Dot(cols, vals, p, lo, j + 1) == Dot(cols, vals, p, lo, j) + Times(vals[j], p[cols[j]]);
  }

  // ---------------------------------------------------------------------
  // MSR to CSR conversion (ML_MSR2CSR), stated on values

  /** The MSR layout that ML_MSR2CSR converts: the `nrows + 1` row pointers
      come first in `bindx`, so the first off-diagonal slot bindx[0] lies
      past them, and the pointers are nondecreasing and stay inside both arrays. */
  predicate ValidMsr(bindx: seq<int>, val: seq<real>, nrows: int)
  {
    0 <= nrows < |bindx| && nrows < bindx[0] &&
    Pointers(bindx, nrows, |bindx|) && bindx[nrows] <= |val|
  }

  /** The nonzero off-diagonal entries of the slots [lo, hi), in storage order. */
  function OffKept(bindx: seq<int>, val: seq<real>, lo: int, hi: int): seq<Entry>
    requires 0 <= lo <= hi <= |bindx| && hi <= |val|
    decreases hi - lo
  {
    if lo == hi then []
    else
      var last := if val[hi - 1] != 0.0 then [Entry(bindx[hi - 1], val[hi - 1])] else [];
      OffKept(bindx, val, lo, hi - 1) + last
  }

  /** The diagonal entry of row i, if it is nonzero. */
  function DiagKept(val: seq<real>, i: int): seq<Entry>
    requires 0 <= i < |val|
  {
    if val[i] != 0.0 then [Entry(i, val[i])] else []
  }

  /** Row i of the converted matrix: its nonzero diagonal first, then its
      nonzero off-diagonals in the order MSR stores them. */
  function RowKept(bindx: seq<int>, val: seq<real>, nrows: int, i: int): seq<Entry>
    requires ValidMsr(bindx, val, nrows) && 0 <= i < nrows
  {
    DiagKept(val, i) + OffKept(bindx, val, bindx[i], bindx[i + 1])
  }

  /** Rows 0..n-1 of the converted matrix, one after the other. */
  function Kept(bindx: seq<int>, val: seq<real>, nrows: int, n: int): seq<Entry>
    requires ValidMsr(bindx, val, nrows) && 0 <= n <= nrows
  {
    if n == 0 then [] else Kept(bindx, val, nrows, n - 1) + RowKept(bindx, val, nrows, n - 1)
  }

  /** The CSR row pointer array of the converted matrix. */
  function CsrRowPtr(bindx: seq<int>, val: seq<real>, nrows: int): (r: seq<int>)
    requires ValidMsr(bindx, val, nrows)
    ensures |r| == nrows + 1
  {
    seq(nrows + 1, i requires 0 <= i <= nrows => |Kept(bindx, val, nrows, i)|)
  }

  /** Row i of the conversion follows rows 0..i-1: diagonal, then off-diagonals. */
  lemma KeptStep(bindx: seq<int>, val: seq<real>, nrows: int, i: int)
    requires ValidMsr(bindx, val, nrows) && 0 <= i < nrows
    ensures Kept(bindx, val, nrows, i + 1) ==
      Kept(bindx, val, nrows, i) + DiagKept(val, i) + OffKept(bindx, val, bindx[i], bindx[i + 1])
  {
  }

  /** The row pointers of rows 0..n, built one row at a time as the
      conversion writes them. */
  function KeptCounts(bindx: seq<int>, val: seq<real>, nrows: int, n: int): (r: seq<int>)
    requires ValidMsr(bindx, val, nrows) && 0 <= n <= nrows
    ensures |r| == n + 1 && r[n] == |Kept(bindx, val, nrows, n)|
  {
    if n == 0 then [0] else KeptCounts(bindx, val, nrows, n - 1) + [|Kept(bindx, val, nrows, n)|]
  }

  /** Built row by row, the pointers are the prefix of the row pointer array. */
  lemma {:induction false} KeptCountsPrefix(bindx: seq<int>, val: seq<real>, nrows: int, n: int)
    requires ValidMsr(bindx, val, nrows) && 0 <= n <= nrows
    ensures KeptCounts(bindx, val, nrows, n) == CsrRowPtr(bindx, val, nrows)[..n + 1]
  {
    if n > 0 {
      KeptCountsPrefix(bindx, val, nrows, n - 1);
      var r := CsrRowPtr(bindx, val, nrows);
      assert r[..n + 1] == r[..n] + [r[n]];
    }
  }

  /** The largest column of a list of entries, folded from -1. */
  function MaxCol(es: seq<Entry>): int
  {
    if es == [] then -1
    else var m := MaxCol(es[..|es| - 1]); if es[|es| - 1].col > m then es[|es| - 1].col else m
  }

  /** MaxCol folds left to right: appending one entry compares it with the
      running maximum. */
  lemma MaxColAppend(es: seq<Entry>, e: Entry)
    ensures MaxCol(es + [e]) == if e.col > MaxCol(es) then e.col else MaxCol(es)
  {
    assert (es + [e])[..|es|] == es;
  }

  lemma {:induction false} OffKeptBound(bindx: seq<int>, val: seq<real>, lo: int, hi: int)
    requires 0 <= lo <= hi <= |bindx| && hi <= |val|
    ensures |OffKept(bindx, val, lo, hi)| <= hi - lo
    decreases hi - lo
  {
    if lo < hi { OffKeptBound(bindx, val, lo, hi - 1); }
  }

  /** Kept(n) is a prefix of Kept(m) for n <= m. */
  lemma {:induction false} KeptPrefix(bindx: seq<int>, val: seq<real>, nrows: int, n: int, m: int)
    requires ValidMsr(bindx, val, nrows) && 0 <= n <= m <= nrows
    ensures |Kept(bindx, val, nrows, n)| <= |Kept(bindx, val, nrows, m)|
    ensures Kept(bindx, val, nrows, m)[..|Kept(bindx, val, nrows, n)|] == Kept(bindx, val, nrows, n)
    decreases m - n
  {
    if n < m {
      KeptPrefix(bindx, val, nrows, n, m - 1);
      var a, b := Kept(bindx, val, nrows, m - 1), Kept(bindx, val, nrows, n);
      assert Kept(bindx, val, nrows, m)[..|a|] == a;
      assert a[..|b|] == b;
    }
  }

  /** The converted row pointers start at 0, never decrease, and end at the
      number of kept entries. */
  lemma CsrRowPtrMonotone(bindx: seq<int>, val: seq<real>, nrows: int)
    requires ValidMsr(bindx, val, nrows)
    ensures CsrRowPtr(bindx, val, nrows)[0] == 0
    ensures CsrRowPtr(bindx, val, nrows)[nrows] == |Kept(bindx, val, nrows, nrows)|
    ensures forall i, j :: 0 <= i <= j <= nrows ==>
      CsrRowPtr(bindx, val, nrows)[i] <= CsrRowPtr(bindx, val, nrows)[j]
  {
    forall i, j | 0 <= i <= j <= nrows
      ensures CsrRowPtr(bindx, val, nrows)[i] <= CsrRowPtr(bindx, val, nrows)[j]
    {
      KeptPrefix(bindx, val, nrows, i, j);
    }
  }

  /** Row i of the converted matrix occupies exactly the slots
      [rowptr[i], rowptr[i+1]) and holds RowKept(i) there. */
  lemma CsrRowIsRowKept(bindx: seq<int>, val: seq<real>, nrows: int, i: int)
    requires ValidMsr(bindx, val, nrows) && 0 <= i < nrows
    ensures var r, es := CsrRowPtr(bindx, val, nrows), Kept(bindx, val, nrows, nrows);
      r[i] <= r[i + 1] <= |es| && es[r[i]..r[i + 1]] == RowKept(bindx, val, nrows, i)
  {
    var es := Kept(bindx, val, nrows, nrows);
    var a := Kept(bindx, val, nrows, i + 1);
    KeptPrefix(bindx, val, nrows, i + 1, nrows);
    assert es[..|a|] == a;
    assert a == Kept(bindx, val, nrows, i) + RowKept(bindx, val, nrows, i);
    assert es[|Kept(bindx, val, nrows, i)|..|a|] == a[|Kept(bindx, val, nrows, i)|..];
  }

  lemma {:induction false} OffKeptNonzero(bindx: seq<int>, val: seq<real>, lo: int, hi: int)
    requires 0 <= lo <= hi <= |bindx| && hi <= |val|
    ensures forall e :: e in OffKept(bindx, val, lo, hi) ==> e.val != 0.0
    decreases hi - lo
  {
    if lo < hi { OffKeptNonzero(bindx, val, lo, hi - 1); }
  }

  /** The conversion keeps only nonzero entries. */
  lemma {:induction false} KeptNonzero(bindx: seq<int>, val: seq<real>, nrows: int, n: int)
    requires ValidMsr(bindx, val, nrows) && 0 <= n <= nrows
    ensures forall e :: e in Kept(bindx, val, nrows, n) ==> e.val != 0.0
  {
    if n > 0 {
      KeptNonzero(bindx, val, nrows, n - 1);
      OffKeptNonzero(bindx, val, bindx[n - 1], bindx[n]);
    }
  }

  /** What MaxCol + 1 (the converted column count) means when no column is negative. */
  lemma {:induction false} MaxColBound(es: seq<Entry>)
    requires forall k :: 0 <= k < |es| ==> es[k].col >= 0
    ensures (MaxCol(es) + 1 == 0) == (es == [])
    ensures forall k :: 0 <= k < |es| ==> es[k].col < MaxCol(es) + 1
    ensures es != [] ==> exists k :: 0 <= k < |es| && es[k].col == MaxCol(es)
  {
    if es != [] {
      var init := es[..|es| - 1];
      MaxColBound(init);
      if init != [] && MaxCol(init) >= es[|es| - 1].col {
        var k :| 0 <= k < |init| && init[k].col == MaxCol(init);
        assert es[k].col == MaxCol(es);
      }
    }
  }

  // ---------------------------------------------------------------------
  // The conversion preserves the matrix-vector product

  lemma {:induction false} EntryDotAppend(a: seq<Entry>, b: seq<Entry>, p: seq<real>)
    requires forall k :: 0 <= k < |a| ==> 0 <= a[k].col < |p|
    requires forall k :: 0 <= k < |b| ==> 0 <= b[k].col < |p|
    ensures EntryDot(a + b, p) == EntryDot(a, p) + EntryDot(b, p)
    decreases |b|
  {
    if b != [] {
      var b' := b[..|b| - 1];
      EntryDotAppend(a, b', p);
      var ab := a + b;
      assert ab[..|ab| - 1] == a + b';
      assert ab[|ab| - 1] == b[|b| - 1];
      var t := Times(b[|b| - 1].val, p[b[|b| - 1].col]);
      assert EntryDot(b, p) == EntryDot(b', p) + t;
      assert EntryDot(ab, p) == EntryDot(a + b', p) + t;
    } else {
      assert a + b == a;
    }
  }

  /** Every kept off-diagonal entry has a column of its slot range, so it addresses a vector of length n. */
  lemma {:induction false} OffKeptCols(bindx: seq<int>, val: seq<real>, lo: int, hi: int, n: int)
    requires ColumnsIn(bindx, lo, hi, n) && hi <= |val|
    ensures forall k :: 0 <= k < |OffKept(bindx, val, lo, hi)| ==> 0 <= OffKept(bindx, val, lo, hi)[k].col < n
    decreases hi - lo
  {
    if lo < hi { OffKeptCols(bindx, val, lo, hi - 1, n); }
  }

  /** Dropping zero values does not change the off-diagonal part of a row product. */
  lemma {:induction false} OffKeptDot(bindx: seq<int>, val: seq<real>, p: seq<real>, lo: int, hi: int)
    requires ColumnsIn(bindx, lo, hi, |p|) && hi <= |val|
    ensures forall k :: 0 <= k < |OffKept(bindx, val, lo, hi)| ==> 0 <= OffKept(bindx, val, lo, hi)[k].col < |p|
    ensures EntryDot(OffKept(bindx, val, lo, hi), p) == Dot(bindx, val, p, lo, hi)
    decreases hi - lo
  {
    OffKeptCols(bindx, val, lo, hi, |p|);
    if lo < hi {
      var init := OffKept(bindx, val, lo, hi - 1);
      var t := Times(val[hi - 1], p[bindx[hi - 1]]);
      OffKeptDot(bindx, val, p, lo, hi - 1);
      var last := if val[hi - 1] != 0.0 then [Entry(bindx[hi - 1], val[hi - 1])] else [];
      assert OffKept(bindx, val, lo, hi) == init + last;
      EntryDotAppend(init, last, p);
      if val[hi - 1] != 0.0 {
        assert EntryDot(last, p) == EntryDot([], p) + t;
      } else {
        assert t == 0.0;
      }
      assert EntryDot(last, p) == t;
      assert Dot(bindx, val, p, lo, hi) == Dot(bindx, val, p, lo, hi - 1) + t;
    }
  }

  /** A CSR slot range of entry lists sums like the entries it holds. */
  lemma {:induction false} DotOfEntries(es: seq<Entry>, p: seq<real>, lo: int, hi: int)
    requires 0 <= lo <= hi <= |es|
    requires forall k :: 0 <= k < |es| ==> 0 <= es[k].col < |p|
    ensures ColumnsIn(Cols(es), lo, hi, |p|)
    ensures Dot(Cols(es), Vals(es), p, lo, hi) == EntryDot(es[lo..hi], p)
    decreases hi - lo
  {
    if lo < hi {
      DotOfEntries(es, p, lo, hi - 1);
      assert es[lo..hi][..hi - 1 - lo] == es[lo..hi - 1];
    }
  }

  /** Every entry of the converted matrix addresses p when MSR's columns and its diagonal do. */
  lemma {:induction false} KeptColumns(bindx: seq<int>, val: seq<real>, nrows: int, n: int, p: seq<real>)
    requires ValidMsr(bindx, val, nrows) && 0 <= n <= nrows && nrows <= |p|
    requires ColumnsIn(bindx, bindx[0], bindx[nrows], |p|)
    ensures forall k :: 0 <= k < |Kept(bindx, val, nrows, n)| ==> 0 <= Kept(bindx, val, nrows, n)[k].col < |p|
  {
    if n > 0 {
      KeptColumns(bindx, val, nrows, n - 1, p);
      assert ColumnsIn(bindx, bindx[n - 1], bindx[n], |p|);
      OffKeptCols(bindx, val, bindx[n - 1], bindx[n], |p|);
      var init, row := Kept(bindx, val, nrows, n - 1), RowKept(bindx, val, nrows, n - 1);
      assert forall k :: 0 <= k < |row| ==> 0 <= row[k].col < |p|;
      var es := Kept(bindx, val, nrows, n);
      assert es == init + row;
      forall k | 0 <= k < |es| ensures 0 <= es[k].col < |p| {
        if k >= |init| {
          assert es[k] == row[k - |init|];
        }
      }
    }
  }

  /** Row i of the CSR matrix that ML_MSR2CSR produces multiplies p exactly as
      the MSR row did: diagonal term plus the stored off-diagonal terms. */
  lemma CsrOfMsrRowProduct(bindx: seq<int>, val: seq<real>, nrows: int, p: seq<real>, i: int)
    requires ValidMsr(bindx, val, nrows) && 0 <= i < nrows && nrows <= |p|
    requires ColumnsIn(bindx, bindx[0], bindx[nrows], |p|)
    ensures var r, es := CsrRowPtr(bindx, val, nrows), Kept(bindx, val, nrows, nrows);
      0 <= r[i] <= r[i + 1] <= |es| && ColumnsIn(Cols(es), r[i], r[i + 1], |p|) &&
      Dot(Cols(es), Vals(es), p, r[i], r[i + 1]) ==
        Times(val[i], p[i]) + Dot(bindx, val, p, bindx[i], bindx[i + 1])
  {
    var r, es := CsrRowPtr(bindx, val, nrows), Kept(bindx, val, nrows, nrows);
    CsrRowIsRowKept(bindx, val, nrows, i);
    KeptColumns(bindx, val, nrows, nrows, p);
    DotOfEntries(es, p, r[i], r[i + 1]);
    assert ColumnsIn(bindx, bindx[i], bindx[i + 1], |p|);
    OffKeptDot(bindx, val, p, bindx[i], bindx[i + 1]);
    var off := OffKept(bindx, val, bindx[i], bindx[i + 1]);
    EntryDotAppend(DiagKept(val, i), off, p);
    DiagKeptDot(val, p, i);
  }

  lemma DiagKeptDot(val: seq<real>, p: seq<real>, i: int)
    requires 0 <= i < |val| && i < |p|
    ensures EntryDot(DiagKept(val, i), p) == Times(val[i], p[i])
  {
    if val[i] != 0.0 {
      var d := DiagKept(val, i);
      assert d[..0] == [];
      assert EntryDot(d, p) == EntryDot([], p) + Times(val[i], p[i]);
    }
  }

  // ---------------------------------------------------------------------
  // Rows as the getrow kernels hand them out

  /** Columns of MSR row `row` in the order MSR_getrows emits them: the diagonal first. */
  function MsrRowCols(bindx: seq<int>, row: int): seq<int>
    requires RowRange(bindx, |bindx|, row)
  {
    [row] + bindx[bindx[row]..bindx[row + 1]]
  }

  /** Values of MSR row `row` in the order MSR_getrows emits them: val[row] first. */
  function MsrRowVals(bindx: seq<int>, val: seq<real>, row: int): seq<real>
    requires RowRange(bindx, |val|, row) && row < |val|
  {
    [val[row]] + val[bindx[row]..bindx[row + 1]]
  }

  /** The (column, value) pairs of two parallel sequences whose value is nonzero, in order. */
  function NonzeroEntries(cs: seq<int>, vs: seq<real>): seq<Entry>
    requires |cs| == |vs|
  {
    if cs == [] then []
    else
      var last := if vs[|vs| - 1] != 0.0 then [Entry(cs[|cs| - 1], vs[|vs| - 1])] else [];
      NonzeroEntries(cs[..|cs| - 1], vs[..|vs| - 1]) + last
  }

  lemma {:induction false} OffKeptIsNonzeroEntries(bindx: seq<int>, val: seq<real>, lo: int, hi: int)
    requires 0 <= lo <= hi <= |bindx| && hi <= |val|
    ensures OffKept(bindx, val, lo, hi) == NonzeroEntries(bindx[lo..hi], val[lo..hi])
    decreases hi - lo
  {
    if lo < hi {
      OffKeptIsNonzeroEntries(bindx, val, lo, hi - 1);
      assert bindx[lo..hi][..hi - 1 - lo] == bindx[lo..hi - 1];
      assert val[lo..hi][..hi - 1 - lo] == val[lo..hi - 1];
    }
  }

  lemma {:induction false} NonzeroEntriesPrepend(c: int, v: real, cs: seq<int>, vs: seq<real>)
    requires |cs| == |vs|
    ensures NonzeroEntries([c] + cs, [v] + vs) ==
      (if v != 0.0 then [Entry(c, v)] else []) + NonzeroEntries(cs, vs)
    decreases |cs|
  {
    if cs != [] {
      NonzeroEntriesPrepend(c, v, cs[..|cs| - 1], vs[..|vs| - 1]);
      assert ([c] + cs)[..|cs|] == [c] + cs[..|cs| - 1];
      assert ([v] + vs)[..|vs|] == [v] + vs[..|vs| - 1];
    } else {
      assert [c] + cs == [c];
      assert [v] + vs == [v];
      assert NonzeroEntries([c], [v]) == NonzeroEntries([], []) + (if v != 0.0 then [Entry(c, v)] else []);
    }
  }

  /** The row MSR_getrows hands out, with its zero values dropped, is exactly
      the row ML_MSR2CSR builds for the same matrix. */
  lemma MsrRowMatchesConversion(bindx: seq<int>, val: seq<real>, nrows: int, row: int)
    requires ValidMsr(bindx, val, nrows) && 0 <= row < nrows
    ensures RowRange(bindx, |bindx|, row) && RowRange(bindx, |val|, row)
    ensures NonzeroEntries(MsrRowCols(bindx, row), MsrRowVals(bindx, val, row)) == RowKept(bindx, val, nrows, row)
  {
    var lo, hi := bindx[row], bindx[row + 1];
    OffKeptIsNonzeroEntries(bindx, val, lo, hi);
    NonzeroEntriesPrepend(row, val[row], bindx[lo..hi], val[lo..hi]);
  }

  // ---------------------------------------------------------------------
  // Writing into the middle of an output buffer

  /** A buffer holding `mid` at `count` over `s0`, with `blk` then written
      right behind `mid`, holds `mid + blk` at `count` over `s0`. */
  lemma WriteBlockAt<T>(s0: seq<T>, count: int, mid: seq<T>, blk: seq<T>, s1: seq<T>, s2: seq<T>)
    requires 0 <= count && count + |mid| + |blk| <= |s0|
    requires s1 == s0[..count] + mid + s0[count + |mid|..]
    requires s2 == s1[..count + |mid|] + blk + s1[count + |mid| + |blk|..]
    ensures s2 == s0[..count] + (mid + blk) + s0[count + |mid| + |blk|..]
  {
    var n := count + |mid|;
    assert s1[..n] == s0[..count] + mid;
    assert s1[n + |blk|..] == s0[n..][|blk|..] == s0[n + |blk|..];
  }

  /** With `blk` written at `c`, the buffer up to the end of `blk` is the
      old part before `c` followed by `blk`, and the rest is unchanged. */
  lemma SpliceParts<T>(s0: seq<T>, c: int, blk: seq<T>, s: seq<T>)
    requires 0 <= c && c + |blk| <= |s0| && s == s0[..c] + blk + s0[c + |blk|..]
    ensures s[..c + |blk|] == s0[..c] + blk && s[c + |blk|..] == s0[c + |blk|..]
  {
  }

  // ---------------------------------------------------------------------
  // Variable block row (VBR) storage with a constant block size

  /** The VBR arrays of ML_vbrdata. Block row b holds the point rows
      [rpntr[b], rpntr[b+1]); its blocks are the slots [bpntr[b], bpntr[b+1])
      of `bindx` (block column) and `indx` (where the block starts in `val`);
      block column c holds the point columns [cpntr[c], cpntr[c+1]); a block
      is stored column by column, so moving one column on jumps by the
      block's row count. */
  datatype Vbr = Vbr(bindx: seq<int>, val: seq<real>, rpntr: seq<int>, cpntr: seq<int>,
                     bpntr: seq<int>, indx: seq<int>)

  /** Reading n values from `start` with stride `stride` stays inside [0, len). */
  predicate StrideIn(len: int, start: int, stride: int, n: int)
    decreases n
  {
    n <= 0 || (0 <= start < len && StrideIn(len, start + stride, stride, n - 1))
  }

  /** The n values of `val` read from `start` with stride `stride`. */
  function StrideVals(val: seq<real>, start: int, stride: int, n: int): (r: seq<real>)
    requires 0 <= n && StrideIn(|val|, start, stride, n)
    ensures |r| == n
    decreases n
  {
    if n == 0 then [] else [val[start]] + StrideVals(val, start + stride, stride, n - 1)
  }

  /** The block size: the row count of the first block row. */
  function Step(m: Vbr): int
    requires |m.rpntr| >= 2
  {
    m.rpntr[1] - m.rpntr[0]
  }

  /** Point row `row` lies in a block row whose pointers are readable. */
  predicate BlockRowOk(m: Vbr, row: int)
  {
    |m.rpntr| >= 2 && Step(m) > 0 && 0 <= row &&
    var b := row / Step(m);
    b + 1 < |m.rpntr| && b + 1 < |m.bpntr| &&
    0 <= m.bpntr[b] <= m.bpntr[b + 1] <= |m.bindx| && m.bpntr[b + 1] <= |m.indx|
  }

  /** Block `i` of the block row of `row` has `Step(m)` columns and, read for
      `row`, stays inside `val`. */
  predicate BlockOk(m: Vbr, row: int, i: int)
    requires BlockRowOk(m, row)
  {
    var b := row / Step(m);
    m.bpntr[b] <= i < m.bpntr[b + 1] &&
    0 <= m.bindx[i] && m.bindx[i] + 1 < |m.cpntr| &&
    m.cpntr[m.bindx[i] + 1] - m.cpntr[m.bindx[i]] == Step(m) &&
    StrideIn(|m.val|, m.indx[i] + row - m.rpntr[b], m.rpntr[b + 1] - m.rpntr[b], Step(m))
  }

  /** Point row `row` can be handed out by VBR_cnst_blk_getrows: its block
      row's pointers are readable and all of its blocks are step x step and
      readable. */
  predicate VbrRowOk(m: Vbr, row: int)
  {
    BlockRowOk(m, row) &&
    forall i :: m.bpntr[row / Step(m)] <= i < m.bpntr[row / Step(m) + 1] ==> BlockOk(m, row, i)
  }

  /** The block row holding point row `row`; its block pointers are readable. */
  function BlkRow(m: Vbr, row: int): (b: int)
    requires VbrRowOk(m, row)
    ensures 0 <= b && b + 1 < |m.rpntr| && b + 1 < |m.bpntr|
    ensures 0 <= m.bpntr[b] <= m.bpntr[b + 1] <= |m.bindx| && m.bpntr[b + 1] <= |m.indx|
  {
    row / Step(m)
  }

  /** Number of entries the blocks of `row`'s block row before slot `hi`
      contribute to the row: `Step(m)` per block. */
  function BlocksLen(m: Vbr, row: int, hi: int): (r: int)
    requires VbrRowOk(m, row) && m.bpntr[BlkRow(m, row)] <= hi <= m.bpntr[BlkRow(m, row) + 1]
    ensures r >= 0
    decreases hi
  {
    if hi == m.bpntr[BlkRow(m, row)] then 0 else BlocksLen(m, row, hi - 1) + Step(m)
  }

  /** The length VBR_cnst_blk_getrows hands out for point row `row`: every
      block of its block row. */
  function VbrRowLen(m: Vbr, row: int): int
    requires VbrRowOk(m, row)
  {
    BlocksLen(m, row, m.bpntr[BlkRow(m, row) + 1])
  }

  /** Counted block by block, the entries before slot `hi` are the block size
      times the number of blocks. */
  lemma {:induction false} BlocksLenIsProduct(m: Vbr, row: int, hi: int)
    requires VbrRowOk(m, row) && m.bpntr[BlkRow(m, row)] <= hi <= m.bpntr[BlkRow(m, row) + 1]
    ensures BlocksLen(m, row, hi) == Step(m) * (hi - m.bpntr[BlkRow(m, row)])
    decreases hi
  {
    if hi > m.bpntr[BlkRow(m, row)] {
      BlocksLenIsProduct(m, row, hi - 1);
      MulSucc(Step(m), hi - 1 - m.bpntr[BlkRow(m, row)]);
    }
  }

  /** The row length is the block size times the block count, as the kernel
      computes it. */
  lemma VbrRowLenIsProduct(m: Vbr, row: int)
    requires VbrRowOk(m, row)
    ensures VbrRowLen(m, row) ==
      Step(m) * (m.bpntr[BlkRow(m, row) + 1] - m.bpntr[BlkRow(m, row)])
  {
    BlocksLenIsProduct(m, row, m.bpntr[BlkRow(m, row) + 1]);
  }

  /** Entries before slot i never outnumber those before slot j >= i. */
  lemma {:induction false} BlocksLenMonotone(m: Vbr, row: int, i: int, j: int)
    requires VbrRowOk(m, row) && m.bpntr[BlkRow(m, row)] <= i <= j <= m.bpntr[BlkRow(m, row) + 1]
    ensures BlocksLen(m, row, i) <= BlocksLen(m, row, j)
    decreases j
  {
    if i < j {
      BlocksLenMonotone(m, row, i, j - 1);
    }
  }

  lemma MulSucc(a: int, n: int)
    ensures a * n + a == a * (n + 1)
  {
  }

  /** Point row `row` can be handed out, its block row is `nRows` point
      rows high and `row` is its `rowOffset`-th point row. */
  predicate InBlockRow(m: Vbr, row: int, nRows: int, rowOffset: int)
  {
    VbrRowOk(m, row) &&
    nRows == m.rpntr[BlkRow(m, row) + 1] - m.rpntr[BlkRow(m, row)] &&
    rowOffset == row - m.rpntr[BlkRow(m, row)]
  }

  /** The block row VBR_cnst_blk_getrows computes for `row` from the size
      `step` of the first block row is the one whose pointers are readable. */
  lemma BlockRowOf(m: Vbr, row: int, step: int)
    requires VbrRowOk(m, row) && step == m.rpntr[1] - m.rpntr[0]
    ensures step > 0 && row / step == BlkRow(m, row)
    ensures 0 <= row / step && row / step + 1 < |m.rpntr| && row / step + 1 < |m.bpntr|
  {
  }

  /** Where VBR_cnst_blk_getrows finds point row `row`: block row
      `row / step`, that block row's height and `row`'s place in it. */
  lemma RowGeometry(m: Vbr, row: int, step: int, blkRow: int, nRows: int, rowOffset: int)
    requires VbrRowOk(m, row) && step == m.rpntr[1] - m.rpntr[0] && blkRow == row / step
    requires blkRow + 1 < |m.rpntr|
    requires nRows == m.rpntr[blkRow + 1] - m.rpntr[blkRow] && rowOffset == row - m.rpntr[blkRow]
    ensures InBlockRow(m, row, nRows, rowOffset) && blkRow == BlkRow(m, row)
  {
  }

  /** Columns of block i: the point columns of its block column, in order. */
  function BlockCols(m: Vbr, i: int, row: int): (r: seq<int>)
    requires VbrRowOk(m, row) && m.bpntr[BlkRow(m, row)] <= i < m.bpntr[BlkRow(m, row) + 1]
    ensures |r| == Step(m)
  {
    assert BlockOk(m, row, i);
    var c0 := m.cpntr[m.bindx[i]];
    seq(Step(m), j => c0 + j)
  }

  /** Values of block i in point row `row`: one per block column, `nRows` apart. */
  function BlockVals(m: Vbr, i: int, row: int): (r: seq<real>)
    requires VbrRowOk(m, row) && m.bpntr[BlkRow(m, row)] <= i < m.bpntr[BlkRow(m, row) + 1]
    ensures |r| == Step(m)
  {
    var b := BlkRow(m, row);
    assert BlockOk(m, row, i);
    StrideVals(m.val, m.indx[i] + row - m.rpntr[b], m.rpntr[b + 1] - m.rpntr[b], Step(m))
  }

  /** Columns of point row `row` from its blocks before slot `hi`. */
  function RowCols(m: Vbr, row: int, hi: int): (r: seq<int>)
    requires VbrRowOk(m, row) && m.bpntr[BlkRow(m, row)] <= hi <= m.bpntr[BlkRow(m, row) + 1]
    ensures |r| == BlocksLen(m, row, hi)
    decreases hi
  {
    if hi == m.bpntr[BlkRow(m, row)] then []
    else
      RowCols(m, row, hi - 1) + BlockCols(m, hi - 1, row)
  }

  /** Values of point row `row` from its blocks before slot `hi`. */
  function RowVals(m: Vbr, row: int, hi: int): (r: seq<real>)
    requires VbrRowOk(m, row) && m.bpntr[BlkRow(m, row)] <= hi <= m.bpntr[BlkRow(m, row) + 1]
    ensures |r| == BlocksLen(m, row, hi)
    decreases hi
  {
    if hi == m.bpntr[BlkRow(m, row)] then []
    else
      RowVals(m, row, hi - 1) + BlockVals(m, hi - 1, row)
  }

  /** Columns VBR_cnst_blk_getrows hands out for point row `row`: all the
      blocks of its block row. */
  function VbrRowCols(m: Vbr, row: int): (r: seq<int>)
    requires VbrRowOk(m, row)
    ensures |r| == VbrRowLen(m, row)
  {
    RowCols(m, row, m.bpntr[BlkRow(m, row) + 1])
  }

  /** Values VBR_cnst_blk_getrows hands out for point row `row`. */
  function VbrRowVals(m: Vbr, row: int): (r: seq<real>)
    requires VbrRowOk(m, row)
    ensures |r| == VbrRowLen(m, row)
  {
    RowVals(m, row, m.bpntr[BlkRow(m, row) + 1])
  }

  /** One more block of the row still fits inside the row's length. */
  lemma RowFits(m: Vbr, row: int, i: int)
    requires VbrRowOk(m, row) && m.bpntr[BlkRow(m, row)] <= i < m.bpntr[BlkRow(m, row) + 1]
    ensures |RowVals(m, row, i)| == |RowCols(m, row, i)|
    ensures |RowCols(m, row, i)| + Step(m) <= VbrRowLen(m, row)
  {
    BlocksLenMonotone(m, row, i + 1, m.bpntr[BlkRow(m, row) + 1]);
  }

  predicate RowsOk(m: Vbr, rows: seq<int>)
  {
    forall k :: 0 <= k < |rows| ==> VbrRowOk(m, rows[k])
  }

  /** Length handed out for the requested row rows[k]. */
  function ReqRowLen(m: Vbr, rows: seq<int>, k: int): int
    requires RowsOk(m, rows) && 0 <= k < |rows|
  {
    VbrRowLen(m, rows[k])
  }

  /** Columns handed out for the requested row rows[k]: all its blocks. */
  function ReqRowCols(m: Vbr, rows: seq<int>, k: int): (r: seq<int>)
    requires RowsOk(m, rows) && 0 <= k < |rows|
    ensures |r| == ReqRowLen(m, rows, k)
  {
    VbrRowCols(m, rows[k])
  }

  /** Values handed out for the requested row rows[k]: all its blocks. */
  function ReqRowVals(m: Vbr, rows: seq<int>, k: int): (r: seq<real>)
    requires RowsOk(m, rows) && 0 <= k < |rows|
    ensures |r| == ReqRowLen(m, rows, k)
  {
    VbrRowVals(m, rows[k])
  }

  /** Total length of the rows handed out for rows[..k]. */
  function ReqLen(m: Vbr, rows: seq<int>, k: int): (r: int)
    requires RowsOk(m, rows) && 0 <= k <= |rows|
    ensures r >= 0
  {
    if k == 0 then 0 else ReqLen(m, rows, k - 1) + ReqRowLen(m, rows, k - 1)
  }

  /** Columns of rows[..k], one row after the other. */
  function ReqCols(m: Vbr, rows: seq<int>, k: int): (r: seq<int>)
    requires RowsOk(m, rows) && 0 <= k <= |rows|
    ensures |r| == ReqLen(m, rows, k)
  {
    if k == 0 then [] else ReqCols(m, rows, k - 1) + ReqRowCols(m, rows, k - 1)
  }

  /** Values of rows[..k], one row after the other. */
  function ReqVals(m: Vbr, rows: seq<int>, k: int): (r: seq<real>)
    requires RowsOk(m, rows) && 0 <= k <= |rows|
    ensures |r| == ReqLen(m, rows, k)
  {
    if k == 0 then [] else ReqVals(m, rows, k - 1) + ReqRowVals(m, rows, k - 1)
  }

  /** Row lengths are never negative, so the handed-out total only grows. */
  lemma {:induction false} ReqLenMonotone(m: Vbr, rows: seq<int>, k: int, n: int)
    requires RowsOk(m, rows) && 0 <= k <= n <= |rows|
    ensures 0 <= ReqLen(m, rows, k) <= ReqLen(m, rows, n)
    decreases n
  {
    if n > 0 {
      assert ReqRowLen(m, rows, n - 1) >= 0;
      if k < n { ReqLenMonotone(m, rows, k, n - 1); } else { ReqLenMonotone(m, rows, n - 1, n - 1); }
    }
  }

  /** The lengths of the first `k` requested rows have been reported. */
  predicate LengthsWritten(m: Vbr, rows: seq<int>, k: int, lengths: seq<int>)
    requires RowsOk(m, rows) && 0 <= k <= |rows|
  {
    k <= |lengths| && forall j :: 0 <= j < k ==> lengths[j] == ReqRowLen(m, rows, j)
  }

  /** The columns of the first `k` requested rows lead `cols`, one row after the other. */
  predicate ColsWritten(m: Vbr, rows: seq<int>, k: int, cols: seq<int>)
    requires RowsOk(m, rows) && 0 <= k <= |rows|
  {
    0 <= ReqLen(m, rows, k) <= |cols| && cols[..ReqLen(m, rows, k)] == ReqCols(m, rows, k)
  }

  /** The values of the first `k` requested rows lead `vals`, one row after the other. */
  predicate ValsWritten(m: Vbr, rows: seq<int>, k: int, vals: seq<real>)
    requires RowsOk(m, rows) && 0 <= k <= |rows|
  {
    0 <= ReqLen(m, rows, k) <= |vals| && vals[..ReqLen(m, rows, k)] == ReqVals(m, rows, k)
  }

  /** The first `k` requested rows have been handed out: their lengths, and
      their columns and values one row after the other. */
  predicate RowsWritten(m: Vbr, rows: seq<int>, k: int,
                        lengths: seq<int>, cols: seq<int>, vals: seq<real>)
    requires RowsOk(m, rows) && 0 <= k <= |rows|
  {
    LengthsWritten(m, rows, k, lengths) && ColsWritten(m, rows, k, cols) && ValsWritten(m, rows, k, vals)
  }

  /** `s` still holds what `s0` held from slot `at` on. */
  predicate SameFrom<T(==)>(s: seq<T>, s0: seq<T>, at: int)
  {
    |s| == |s0| && 0 <= at <= |s| && s[at..] == s0[at..]
  }

  /** Slots left alone from `a` on and then from `b >= a` on are left alone from `b` on. */
  lemma SameFromTrans<T>(s: seq<T>, s1: seq<T>, s0: seq<T>, a: int, b: int)
    requires SameFrom(s1, s0, a) && SameFrom(s, s1, b) && a <= b
    ensures SameFrom(s, s0, b)
  {
    assert s1[b..] == s1[a..][b - a..];
    assert s0[b..] == s0[a..][b - a..];
  }

  /** Setting slot `k` of a sequence left alone from `k` on leaves it alone from `k + 1` on. */
  lemma SameFromSet<T>(s: seq<T>, s0: seq<T>, k: int, x: T)
    requires SameFrom(s, s0, k) && k < |s|
    ensures SameFrom(s[k := x], s0, k + 1)
  {
    assert s0[k + 1..] == s0[k..][1..];
    assert s[k := x][k + 1..] == s[k..][1..];
  }

  /** What VBR_cnst_blk_getrows leaves behind, starting from the buffers
      `lengths0`, `cols0`, `vals0`: success exactly when all the requested
      rows fit, with every row handed out and nothing written past them;
      otherwise the first row `k` that does not fit, with the rows before it
      handed out, the length of row `k` reported, and nothing written for
      row `k` or any later row. */
  predicate VbrGetrowsOutcome(m: Vbr, rows: seq<int>, allocatedSpace: int, status: int,
                              lengths0: seq<int>, cols0: seq<int>, vals0: seq<real>,
                              lengths: seq<int>, cols: seq<int>, vals: seq<real>)
    requires RowsOk(m, rows)
  {
    && (status == 1 || status == 0)
    && (status == 1 <==> ReqLen(m, rows, |rows|) <= allocatedSpace)
    && (status == 1 ==>
          RowsWritten(m, rows, |rows|, lengths, cols, vals) &&
          SameFrom(lengths, lengths0, |rows|) &&
          SameFrom(cols, cols0, ReqLen(m, rows, |rows|)) &&
          SameFrom(vals, vals0, ReqLen(m, rows, |rows|)))
    && (status == 0 ==>
          exists k :: 0 <= k < |rows| && RowsWritten(m, rows, k, lengths, cols, vals) &&
            k < |lengths| && lengths[k] == ReqRowLen(m, rows, k) &&
            ReqLen(m, rows, k) <= allocatedSpace && allocatedSpace < ReqLen(m, rows, k + 1) &&
            SameFrom(lengths, lengths0, k + 1) &&
            SameFrom(cols, cols0, ReqLen(m, rows, k)) &&
            SameFrom(vals, vals0, ReqLen(m, rows, k)))
  }

  /** Starting from the buffers `lengths0`, `cols0`, `vals0`, the first `k`
      requested rows have been handed out and nothing after them written. */
  predicate Handed(m: Vbr, rows: seq<int>, k: int,
                   lengths0: seq<int>, cols0: seq<int>, vals0: seq<real>,
                   lengths: seq<int>, cols: seq<int>, vals: seq<real>)
    requires RowsOk(m, rows) && 0 <= k <= |rows|
  {
    RowsWritten(m, rows, k, lengths, cols, vals) &&
    SameFrom(lengths, lengths0, k) &&
    SameFrom(cols, cols0, ReqLen(m, rows, k)) && SameFrom(vals, vals0, ReqLen(m, rows, k))
  }

  /** Reporting row `k`'s length and writing its entries, and nothing past
      them, hands out one more row. */
  lemma HandedNext(m: Vbr, rows: seq<int>, k: int,
                   lengths0: seq<int>, cols0: seq<int>, vals0: seq<real>,
                   lengths1: seq<int>, cols1: seq<int>, vals1: seq<real>,
                   lengths: seq<int>, cols: seq<int>, vals: seq<real>)
    requires RowsOk(m, rows) && 0 <= k < |rows|
    requires Handed(m, rows, k, lengths0, cols0, vals0, lengths1, cols1, vals1)
    requires k < |lengths1| && lengths == lengths1[k := ReqRowLen(m, rows, k)]
    requires RowsWritten(m, rows, k + 1, lengths, cols, vals)
    requires SameFrom(cols, cols1, ReqLen(m, rows, k + 1))
    requires SameFrom(vals, vals1, ReqLen(m, rows, k + 1))
    ensures Handed(m, rows, k + 1, lengths0, cols0, vals0, lengths, cols, vals)
  {
    SameFromSet(lengths1, lengths0, k, ReqRowLen(m, rows, k));
    ReqLenMonotone(m, rows, k, k + 1);
    SameFromTrans(cols, cols1, cols0, ReqLen(m, rows, k), ReqLen(m, rows, k + 1));
    SameFromTrans(vals, vals1, vals0, ReqLen(m, rows, k), ReqLen(m, rows, k + 1));
  }

  /** Stopping at row `k`, the first that does not fit, after reporting its
      length and writing nothing else, is the failure outcome. */
  lemma GetrowsStopped(m: Vbr, rows: seq<int>, allocatedSpace: int, k: int,
                       lengths0: seq<int>, cols0: seq<int>, vals0: seq<real>,
                       lengths1: seq<int>, cols: seq<int>, vals: seq<real>)
    requires RowsOk(m, rows) && 0 <= k < |rows| && k < |lengths1|
    requires Handed(m, rows, k, lengths0, cols0, vals0, lengths1, cols, vals)
    requires ReqLen(m, rows, k) <= allocatedSpace < ReqLen(m, rows, k + 1)
    ensures VbrGetrowsOutcome(m, rows, allocatedSpace, 0, lengths0, cols0, vals0,
                              lengths1[k := ReqRowLen(m, rows, k)], cols, vals)
  {
    var lengths := lengths1[k := ReqRowLen(m, rows, k)];
    RowsWrittenLength(m, rows, k, lengths1, cols, vals);
    SameFromSet(lengths1, lengths0, k, ReqRowLen(m, rows, k));
    ReqLenMonotone(m, rows, k + 1, |rows|);
    assert RowsWritten(m, rows, k, lengths, cols, vals) && lengths[k] == ReqRowLen(m, rows, k);
  }

  /** Handing out every requested row within `allocatedSpace` is the success outcome. */
  lemma GetrowsDone(m: Vbr, rows: seq<int>, allocatedSpace: int,
                    lengths0: seq<int>, cols0: seq<int>, vals0: seq<real>,
                    lengths: seq<int>, cols: seq<int>, vals: seq<real>)
    requires RowsOk(m, rows)
    requires Handed(m, rows, |rows|, lengths0, cols0, vals0, lengths, cols, vals)
    requires ReqLen(m, rows, |rows|) <= allocatedSpace
    ensures VbrGetrowsOutcome(m, rows, allocatedSpace, 1, lengths0, cols0, vals0, lengths, cols, vals)
  {
  }

  /** Reporting the length of the next row keeps the rows already handed out. */
  lemma RowsWrittenLength(m: Vbr, rows: seq<int>, k: int,
                          lengths: seq<int>, cols: seq<int>, vals: seq<real>)
    requires RowsOk(m, rows) && 0 <= k < |rows| && k < |lengths|
    requires RowsWritten(m, rows, k, lengths, cols, vals)
    ensures RowsWritten(m, rows, k, lengths[k := ReqRowLen(m, rows, k)], cols, vals)
    ensures lengths[k := ReqRowLen(m, rows, k)][k] == ReqRowLen(m, rows, k)
  {
  }

  /** The columns of row `k` right behind those of the rows before it. */
  lemma ColsWrittenNext(m: Vbr, rows: seq<int>, k: int, cols: seq<int>)
    requires RowsOk(m, rows) && 0 <= k < |rows| && ReqLen(m, rows, k + 1) <= |cols|
    requires cols[..ReqLen(m, rows, k + 1)] == ReqCols(m, rows, k) + ReqRowCols(m, rows, k)
    ensures ColsWritten(m, rows, k + 1, cols)
  {
    ReqLenMonotone(m, rows, k + 1, k + 1);
  }

  /** The values of row `k` right behind those of the rows before it. */
  lemma ValsWrittenNext(m: Vbr, rows: seq<int>, k: int, vals: seq<real>)
    requires RowsOk(m, rows) && 0 <= k < |rows| && ReqLen(m, rows, k + 1) <= |vals|
    requires vals[..ReqLen(m, rows, k + 1)] == ReqVals(m, rows, k) + ReqRowVals(m, rows, k)
    ensures ValsWritten(m, rows, k + 1, vals)
  {
    ReqLenMonotone(m, rows, k + 1, k + 1);
  }

  /** Appending row `k` after the rows already handed out hands out one more row. */
  lemma RowsWrittenNext(m: Vbr, rows: seq<int>, k: int, lengths: seq<int>,
                        cols: seq<int>, vals: seq<real>)
    requires RowsOk(m, rows) && 0 <= k < |rows| && k < |lengths|
    requires LengthsWritten(m, rows, k, lengths) && lengths[k] == ReqRowLen(m, rows, k)
    requires ReqLen(m, rows, k + 1) <= |cols| && ReqLen(m, rows, k + 1) <= |vals|
    requires cols[..ReqLen(m, rows, k + 1)] == ReqCols(m, rows, k) + ReqRowCols(m, rows, k)
    requires vals[..ReqLen(m, rows, k + 1)] == ReqVals(m, rows, k) + ReqRowVals(m, rows, k)
    ensures RowsWritten(m, rows, k + 1, lengths, cols, vals)
  {
    ColsWrittenNext(m, rows, k, cols);
    ValsWrittenNext(m, rows, k, vals);
  }
}
