/**
  The kernels of ml_mat_formats.c that rewrite a matrix in place:
  ML_MSR2CSR, which compacts an MSR matrix into CSR inside its own arrays,
  and ML_Scale_CSR, which scales the stored rows of a CSR matrix.
*/
module Convert {
  import opened MatFormatsSpec

  /** The front of the arrays holds the entries `es` (columns in `cols`,
      values in `vals`), and everything from slot |es| on is still the
      original MSR data `b`/`v`. */
  ghost predicate Compacted(cols: seq<int>, vals: seq<real>, b: seq<int>, v: seq<real>, es: seq<Entry>)
  {
    |es| <= |cols| == |b| && |es| <= |vals| == |v| &&
    (forall k {:trigger cols[k]} :: 0 <= k < |es| ==> cols[k] == es[k].col) &&
    (forall k {:trigger vals[k]} :: 0 <= k < |es| ==> vals[k] == es[k].val) &&
    (forall k {:trigger cols[k]} :: |es| <= k < |cols| ==> cols[k] == b[k]) &&
    (forall k {:trigger vals[k]} :: |es| <= k < |vals| ==> vals[k] == v[k])
  }

  /** The inner loop of ML_MSR2CSR for one row: the nonzero entries of the
      slots [lower, upper) appended at the write cursor `nz`, with the
      running maximum column `ncols`. The cursor stays at least `slack`
      slots behind the slot being read, so nothing unread is overwritten. */
  method CompactOffDiagonals(bindx: array<int>, val: array<real>, ghost b: seq<int>, ghost v: seq<real>,
                             lower: int, upper: int, ghost es0: seq<Entry>, ghost slack: int,
                             nz0: int, ncols0: int)
    returns (nz: int, ncols: int)
    requires 0 <= lower <= upper <= |b| && upper <= |v|
    requires Compacted(bindx[..], val[..], b, v, es0)
    requires nz0 == |es0| && 0 <= slack && nz0 + slack <= lower && ncols0 == MaxCol(es0)
    modifies bindx, val
    ensures Compacted(bindx[..], val[..], b, v, es0 + OffKept(b, v, lower, upper))
    ensures nz == |es0 + OffKept(b, v, lower, upper)| && nz + slack <= upper
    ensures ncols == MaxCol(es0 + OffKept(b, v, lower, upper))
  {
    nz, ncols := nz0, ncols0;
    ghost var es := es0;
    assert es0 + OffKept(b, v, lower, lower) == es0;
    var j := lower;
    while j < upper
      invariant lower <= j <= upper && es == es0 + OffKept(b, v, lower, j)
      invariant Compacted(bindx[..], val[..], b, v, es)
      invariant nz == |es| && nz + slack <= j && ncols == MaxCol(es)
    {
      if val[j] != 0.0 {
        bindx[nz] := bindx[j];
        val[nz] := val[j];
        nz := nz + 1;
        assert bindx[j] == b[j];
        if bindx[j] > ncols {
          ncols := bindx[j];
        }
        MaxColAppend(es, Entry(b[j], v[j]));
        es := es + [Entry(b[j], v[j])];
      }
      j := j + 1;
    }
  }

  /** Compacted arrays read as the entries' columns and values followed by
      the untouched rest of the original arrays. */
  lemma CompactedSplit(cols: seq<int>, vals: seq<real>, b: seq<int>, v: seq<real>, es: seq<Entry>)
    requires Compacted(cols, vals, b, v, es)
    ensures cols[..|es|] == Cols(es) && vals[..|es|] == Vals(es)
    ensures cols[|es|..] == b[|es|..] && vals[|es|..] == v[|es|..]
  {
    var n := |es|;
    assert cols[..n] == Cols(es) by {
      forall k | 0 <= k < n ensures cols[..n][k] == Cols(es)[k] { assert cols[k] == es[k].col; }
    }
    assert vals[..n] == Vals(es) by {
      forall k | 0 <= k < n ensures vals[..n][k] == Vals(es)[k] { assert vals[k] == es[k].val; }
    }
    assert cols[n..] == b[n..] by {
      forall k | 0 <= k < |cols| - n ensures cols[n..][k] == b[n..][k] { assert cols[n + k] == b[n + k]; }
    }
    assert vals[n..] == v[n..] by {
      forall k | 0 <= k < |vals| - n ensures vals[n..][k] == v[n..][k] { assert vals[n + k] == v[n + k]; }
    }
  }

  /** The diagonal step of ML_MSR2CSR for row i: a nonzero diagonal `d` is
      written at the cursor `nz0` as entry (i, d). */
  method KeepDiagonal(bindx: array<int>, val: array<real>, ghost b: seq<int>, ghost v: seq<real>,
                      i: int, d: real, ghost es0: seq<Entry>, nz0: int, ncols0: int)
    returns (nz: int, ncols: int)
    requires 0 <= i < |v| && d == v[i]
    requires Compacted(bindx[..], val[..], b, v, es0)
    requires nz0 == |es0| < bindx.Length && nz0 < val.Length && ncols0 == MaxCol(es0)
    modifies bindx, val
    ensures Compacted(bindx[..], val[..], b, v, es0 + DiagKept(v, i))
    ensures nz == |es0 + DiagKept(v, i)| && ncols == MaxCol(es0 + DiagKept(v, i))
  {
    nz, ncols := nz0, ncols0;
    if d != 0.0 {
      bindx[nz] := i;
      val[nz] := d;
      nz := nz + 1;
      if i > ncols {
        ncols := i;
      }
      MaxColAppend(es0, Entry(i, v[i]));
    } else {
      assert es0 + DiagKept(v, i) == es0;
    }
  }

  /** One pass of the row loop of ML_MSR2CSR: row i's kept entries are
      appended at the cursor `nz0`, whose slack before the row's first
      slot `lower` is at least one slot per row still to come. */
  method CompactRow(bindx: array<int>, val: array<real>, ghost b: seq<int>, ghost v: seq<real>,
                    nrows: int, i: int, d: real, lower: int, upper: int,
                    ghost es0: seq<Entry>, nz0: int, ncols0: int)
    returns (nz: int, ncols: int)
    requires ValidMsr(b, v, nrows) && 0 <= i < nrows && d == v[i]
    requires lower == b[i] && upper == b[i + 1] && es0 == Kept(b, v, nrows, i)
    requires Compacted(bindx[..], val[..], b, v, es0)
    requires nz0 == |es0| && nz0 <= i + b[i] - b[0] && ncols0 == MaxCol(es0)
    modifies bindx, val
    ensures Compacted(bindx[..], val[..], b, v, Kept(b, v, nrows, i + 1))
    ensures nz == |Kept(b, v, nrows, i + 1)| && nz <= i + 1 + upper - b[0]
    ensures ncols == MaxCol(Kept(b, v, nrows, i + 1))
  {
    assert b[0] <= b[i] <= b[i + 1] <= b[nrows];
    nz, ncols := KeepDiagonal(bindx, val, b, v, i, d, es0, nz0, ncols0);
    ghost var es := es0 + DiagKept(v, i);
    nz, ncols := CompactOffDiagonals(bindx, val, b, v, lower, upper, es, b[0] - i - 1, nz, ncols);
    KeptStep(b, v, nrows, i);
  }

  /** The first phase of ML_MSR2CSR: the row pointers and the diagonals
      are copied into new arrays before the compaction overwrites them. */
  method CopyAside(bindx: array<int>, val: array<real>, nrows: int)
    returns (rowptr: array<int>, diag: array<real>)
    requires 0 <= nrows < bindx.Length && nrows <= val.Length
    ensures fresh(rowptr) && fresh(diag)
    ensures rowptr[..] == bindx[..nrows + 1] && diag[..] == val[..nrows]
  {
    rowptr := new int[nrows + 1];
    diag := new real[nrows];
    var i := 0;
    while i <= nrows
      invariant 0 <= i <= nrows + 1 && rowptr[..i] == bindx[..i]
      modifies rowptr
    {
      rowptr[i] := bindx[i];
      i := i + 1;
    }
    i := 0;
    while i < nrows
      invariant 0 <= i <= nrows && diag[..i] == val[..i] && rowptr[..] == bindx[..nrows + 1]
      modifies diag
    {
      diag[i] := val[i];
      i := i + 1;
    }
  }

  /** Writing the next row pointer over the first untouched original one. */
  lemma SetPointer(done: seq<int>, rest: seq<int>, nz: int)
    requires |rest| > 0
    ensures (done + rest)[|done| := nz] == done + [nz] + rest[1..]
  {
  }

  /** The row loop of ML_MSR2CSR over the copies `rowptr` and `diag`:
      every row's kept entries are written to the front of `bindx`/`val`,
      and `rowptr` becomes the CSR row pointer array. Returns the largest
      kept column. */
  method CompactRows(bindx: array<int>, val: array<real>, rowptr: array<int>, diag: array<real>,
                     nrows: int, ghost b: seq<int>, ghost v: seq<real>)
    returns (ncols: int)
    requires ValidMsr(b, v, nrows) && bindx[..] == b && val[..] == v
    requires rowptr.Length == nrows + 1 && forall t :: 0 <= t <= nrows ==> rowptr[t] == b[t]
    requires diag.Length == nrows && forall t :: 0 <= t < nrows ==> diag[t] == v[t]
    requires rowptr != bindx && diag != val
    modifies bindx, val, rowptr
    ensures rowptr[..] == KeptCounts(b, v, nrows, nrows)
    ensures Compacted(bindx[..], val[..], b, v, Kept(b, v, nrows, nrows))
    ensures ncols == MaxCol(Kept(b, v, nrows, nrows))
  {
    var lower := rowptr[0];
    rowptr[0] := 0;
    var nz := 0;
    ncols := -1;
    var i := 0;
    ghost var es: seq<Entry> := [];
    ghost var counts := [0];
    assert rowptr[..] == counts + b[1..nrows + 1];
    while i < nrows
      invariant 0 <= i <= nrows && lower == b[i] && es == Kept(b, v, nrows, i)
      invariant counts == KeptCounts(b, v, nrows, i)
      invariant rowptr[..] == counts + b[i + 1..nrows + 1]
      invariant Compacted(bindx[..], val[..], b, v, es)
      invariant nz == |es| && nz <= i + b[i] - b[0] && ncols == MaxCol(es)
      modifies bindx, val, rowptr
    {
      assert rowptr[i + 1] == b[i + 1];
      var upper := rowptr[i + 1];
      nz, ncols := CompactRow(bindx, val, b, v, nrows, i, diag[i], lower, upper, es, nz, ncols);
      es := Kept(b, v, nrows, i + 1);
      SetPointer(counts, b[i + 1..nrows + 1], nz);
      assert b[i + 1..nrows + 1][1..] == b[i + 2..nrows + 1];
      counts := counts + [nz];
      rowptr[i + 1] := nz;
      lower := upper;
      i := i + 1;
    }
  }

  /** ML_MSR2CSR. The row pointers bindx[0..nrows] and the diagonals
      val[0..nrows) are copied aside first, then every row's nonzero
      diagonal and nonzero off-diagonals are written back to the front of
      `bindx`/`val` through the write cursor `nz`, which never passes the
      slot being read. Returns the new CSR row pointer array and one more
      than the largest kept column (0 when nothing is kept). */
  method MsrToCsr(bindx: array<int>, val: array<real>, nrows: int)
    returns (rowptr: array<int>, ncolumns: int)
    requires ValidMsr(bindx[..], val[..], nrows)
    modifies bindx, val
    ensures fresh(rowptr)
    ensures rowptr[..] == CsrRowPtr(old(bindx[..]), old(val[..]), nrows)
    ensures var es := Kept(old(bindx[..]), old(val[..]), nrows, nrows);
      |es| <= bindx.Length && |es| <= val.Length &&
      bindx[..|es|] == Cols(es) && val[..|es|] == Vals(es) &&
      bindx[|es|..] == old(bindx[|es|..]) && val[|es|..] == old(val[|es|..]) &&
      ncolumns == MaxCol(es) + 1
  {
    ghost var b, v := bindx[..], val[..];
    var diag;
    rowptr, diag := CopyAside(bindx, val, nrows);
    var ncols := CompactRows(bindx, val, rowptr, diag, nrows, b, v);
    KeptCountsPrefix(b, v, nrows, nrows);
    CompactedSplit(bindx[..], val[..], b, v, Kept(b, v, nrows, nrows));
    ncolumns := ncols + 1;
  }

  // ---------------------------------------------------------------------
  // ML_Scale_CSR on a single-level matrix

  /** The factor ML_Scale_CSR multiplies a row by: the row's scale factor,
      or its reciprocal when `multOrDivide` is 0. */
  function Factor(s: real, multOrDivide: int): real
    requires multOrDivide != 0 || s != 0.0
  {
    if multOrDivide == 0 then 1.0 / s else s
  }

  /** The stored row that requested row `row` scales: `row` itself, or its
      entry in the row map when there is one; -1 means the row is skipped. */
  function ActualRow(rowMap: seq<int>, hasRowMap: bool, row: int): int
    requires 0 <= row && (hasRowMap ==> row < |rowMap|)
  {
    if hasRowMap then rowMap[row] else row
  }

  /** The inputs ML_Scale_CSR can work on: a scale factor per row, and for
      every row that is not skipped a nonzero factor when dividing and a
      readable slot range of the `len` stored values. */
  predicate ScaleOk(rowptr: seq<int>, len: int, factors: seq<real>, multOrDivide: int,
                    rowMap: seq<int>, hasRowMap: bool, nrows: int)
  {
    0 <= nrows <= |factors| && (hasRowMap ==> nrows <= |rowMap|) &&
    forall row :: 0 <= row < nrows ==>
      ActualRow(rowMap, hasRowMap, row) == -1 ||
      ((multOrDivide != 0 || factors[row] != 0.0) &&
       RowRange(rowptr, len, ActualRow(rowMap, hasRowMap, row)))
  }

  /** `v` with the slots [lo, hi) multiplied by d. */
  function ScaleSlots(v: seq<real>, lo: int, hi: int, d: real): (r: seq<real>)
    requires 0 <= lo <= hi <= |v|
  {
    seq(|v|, k requires 0 <= k < |v| => if lo <= k < hi then Times(v[k], d) else v[k])
  }

  /** The stored values after ML_Scale_CSR has treated rows 0..n-1, one
      after the other. */
  function ScaledRows(v: seq<real>, rowptr: seq<int>, factors: seq<real>, multOrDivide: int,
                      rowMap: seq<int>, hasRowMap: bool, n: int): (r: seq<real>)
    requires ScaleOk(rowptr, |v|, factors, multOrDivide, rowMap, hasRowMap, n)
    ensures |r| == |v|
    decreases n
  {
    if n == 0 then v
    else
      var w := ScaledRows(v, rowptr, factors, multOrDivide, rowMap, hasRowMap, n - 1);
      var a := ActualRow(rowMap, hasRowMap, n - 1);
      if a == -1 then w else ScaleSlots(w, rowptr[a], rowptr[a + 1], Factor(factors[n - 1], multOrDivide))
  }

  /** ML_Scale_CSR for a matrix without sub-matrices: every stored value of
      row actual_row is multiplied by the row's factor, row after row. */
  method ScaleCsr(rowptr: array<int>, values: array<real>, scaleFactors: array<real>,
                  multOrDivide: int, hasRowMap: bool, rowMap: array<int>, nrows: int)
    requires ScaleOk(rowptr[..], values.Length, scaleFactors[..], multOrDivide, rowMap[..], hasRowMap, nrows)
    requires values != scaleFactors
    modifies values
    ensures values[..] ==
      ScaledRows(old(values[..]), rowptr[..], scaleFactors[..], multOrDivide, rowMap[..], hasRowMap, nrows)
  {
    ghost var v := values[..];
    ghost var ptr, fs, map_ := rowptr[..], scaleFactors[..], rowMap[..];
    var row := 0;
    while row < nrows
      invariant 0 <= row <= nrows
      invariant rowptr[..] == ptr && scaleFactors[..] == fs
      invariant values[..] == ScaledRows(v, ptr, fs, multOrDivide, map_, hasRowMap, row)
    {
      var actualRow := row;
      if hasRowMap {
        actualRow := rowMap[row];
      }
      assert actualRow == ActualRow(map_, hasRowMap, row);
      ghost var w := values[..];
      if actualRow != -1 {
        // The reciprocal is taken only here, where it is used.
        assert (multOrDivide != 0 || fs[row] != 0.0) && RowRange(ptr, values.Length, actualRow);
        var dtemp := if multOrDivide == 0 then 1.0 / scaleFactors[row] else scaleFactors[row];
        assert dtemp == Factor(fs[row], multOrDivide);
        ScaleSpan(values, rowptr[actualRow], rowptr[actualRow + 1], dtemp);
        assert values[..] == ScaleSlots(w, ptr[actualRow], ptr[actualRow + 1], Factor(fs[row], multOrDivide));
      }
      row := row + 1;
    }
  }

  /** The inner loop of ML_Scale_CSR: the slots [lo, hi) of values are
      multiplied by d in place, the others are left alone. */
  method ScaleSpan(values: array<real>, lo: int, hi: int, d: real)
    requires 0 <= lo <= hi <= values.Length
    modifies values
    ensures values[..] == ScaleSlots(old(values[..]), lo, hi, d)
  {
    ghost var w := values[..];
    var i := lo;
    while i < hi
      invariant lo <= i <= hi
      invariant forall k :: 0 <= k < |w| ==> values[k] == if lo <= k < i then Times(w[k], d) else w[k]
    {
      values[i] := values[i] * d;
      i := i + 1;
    }
  }

  /** Without a row map, on nondecreasing row pointers, every stored value
      of row i ends up multiplied by row i's factor exactly once, and the
      slots outside all rows are left alone. */
  lemma {:induction false} ScaledRowsEntries(v: seq<real>, rowptr: seq<int>, factors: seq<real>,
                                             multOrDivide: int, rowMap: seq<int>, n: int)
    requires ScaleOk(rowptr, |v|, factors, multOrDivide, rowMap, false, n) && Pointers(rowptr, n, |v|)
    ensures var r := ScaledRows(v, rowptr, factors, multOrDivide, rowMap, false, n);
      (forall i, k :: 0 <= i < n && rowptr[i] <= k < rowptr[i + 1] ==>
         r[k] == Times(v[k], Factor(factors[i], multOrDivide))) &&
      (forall k :: 0 <= k < |v| && (k < rowptr[0] || rowptr[n] <= k) ==> r[k] == v[k])
    decreases n
  {
    if n > 0 {
      assert Pointers(rowptr, n - 1, |v|);
      ScaledRowsEntries(v, rowptr, factors, multOrDivide, rowMap, n - 1);
      var r := ScaledRows(v, rowptr, factors, multOrDivide, rowMap, false, n);
      forall i, k | 0 <= i < n && rowptr[i] <= k < rowptr[i + 1]
        ensures r[k] == Times(v[k], Factor(factors[i], multOrDivide))
      {
        if i < n - 1 {
          assert rowptr[i + 1] <= rowptr[n - 1];
        }
      }
    }
  }

  /** Two different stored rows of nondecreasing pointers share no slot. */
  lemma RowsDisjoint(rowptr: seq<int>, len: int, nstored: int, a: int, b: int, k: int)
    requires Pointers(rowptr, nstored, len) && 0 <= a < nstored && 0 <= b < nstored && a != b
    requires rowptr[a] <= k < rowptr[a + 1]
    ensures !(rowptr[b] <= k < rowptr[b + 1])
  {
    if a < b {
      assert rowptr[a + 1] <= rowptr[b];
    } else {
      assert rowptr[b + 1] <= rowptr[a];
    }
  }

  /** A row map whose entries are -1 or stored rows below `nstored`, no
      stored row named twice. */
  predicate InjectiveRowMap(rowMap: seq<int>, n: int, nstored: int)
  {
    0 <= n <= |rowMap| &&
    (forall i :: 0 <= i < n ==> -1 <= rowMap[i] < nstored) &&
    (forall i, j :: 0 <= i < j < n && rowMap[i] != -1 ==> rowMap[i] != rowMap[j])
  }

  /** Slot k lies in the stored row of none of the requested rows 0..n-1. */
  predicate Untouched(rowMap: seq<int>, rowptr: seq<int>, n: int, k: int)
    requires InjectiveRowMap(rowMap, n, |rowptr| - 1)
  {
    forall i :: 0 <= i < n && rowMap[i] != -1 ==> !(rowptr[rowMap[i]] <= k < rowptr[rowMap[i] + 1])
  }

  /** `r` is `v` with the stored row of every requested row i < n that is
      not skipped multiplied by row i's factor, and every other slot as in `v`. */
  predicate MapScaled(v: seq<real>, r: seq<real>, rowptr: seq<int>, factors: seq<real>,
                      multOrDivide: int, rowMap: seq<int>, n: int)
    requires ScaleOk(rowptr, |v|, factors, multOrDivide, rowMap, true, n)
    requires Pointers(rowptr, |rowptr| - 1, |v|) && InjectiveRowMap(rowMap, n, |rowptr| - 1)
  {
    |r| == |v| &&
    (forall i, k :: 0 <= i < n && rowMap[i] != -1 && rowptr[rowMap[i]] <= k < rowptr[rowMap[i] + 1] ==>
       r[k] == Times(v[k], Factor(factors[i], multOrDivide))) &&
    (forall k :: 0 <= k < |v| && Untouched(rowMap, rowptr, n, k) ==> r[k] == v[k])
  }

  /** Scaling the stored row of requested row n-1, a row no earlier
      requested row maps to, extends MapScaled by that row. */
  lemma MapScaledStep(v: seq<real>, w: seq<real>, rowptr: seq<int>, factors: seq<real>,
                      multOrDivide: int, rowMap: seq<int>, n: int)
    requires 0 < n && ScaleOk(rowptr, |v|, factors, multOrDivide, rowMap, true, n)
    requires Pointers(rowptr, |rowptr| - 1, |v|) && InjectiveRowMap(rowMap, n, |rowptr| - 1)
    requires ScaleOk(rowptr, |v|, factors, multOrDivide, rowMap, true, n - 1)
    requires InjectiveRowMap(rowMap, n - 1, |rowptr| - 1)
    requires MapScaled(v, w, rowptr, factors, multOrDivide, rowMap, n - 1) && rowMap[n - 1] != -1
    ensures MapScaled(v, ScaleSlots(w, rowptr[rowMap[n - 1]], rowptr[rowMap[n - 1] + 1],
                                    Factor(factors[n - 1], multOrDivide)),
                      rowptr, factors, multOrDivide, rowMap, n)
  {
    var nstored := |rowptr| - 1;
    var a := rowMap[n - 1];
    var r := ScaleSlots(w, rowptr[a], rowptr[a + 1], Factor(factors[n - 1], multOrDivide));
    forall i, k | 0 <= i < n && rowMap[i] != -1 && rowptr[rowMap[i]] <= k < rowptr[rowMap[i] + 1]
      ensures r[k] == Times(v[k], Factor(factors[i], multOrDivide))
    {
      if i < n - 1 {
        RowsDisjoint(rowptr, |v|, nstored, rowMap[i], a, k);
      } else {
        forall j | 0 <= j < n - 1 && rowMap[j] != -1
          ensures !(rowptr[rowMap[j]] <= k < rowptr[rowMap[j] + 1])
        {
          RowsDisjoint(rowptr, |v|, nstored, a, rowMap[j], k);
        }
        assert Untouched(rowMap, rowptr, n - 1, k);
      }
    }
    forall k | 0 <= k < |v| && Untouched(rowMap, rowptr, n, k)
      ensures r[k] == v[k]
    {
      assert Untouched(rowMap, rowptr, n - 1, k);
    }
  }

  /** A skipped requested row n-1 leaves MapScaled as it was. */
  lemma MapScaledSkip(v: seq<real>, w: seq<real>, rowptr: seq<int>, factors: seq<real>,
                      multOrDivide: int, rowMap: seq<int>, n: int)
    requires 0 < n && ScaleOk(rowptr, |v|, factors, multOrDivide, rowMap, true, n)
    requires Pointers(rowptr, |rowptr| - 1, |v|) && InjectiveRowMap(rowMap, n, |rowptr| - 1)
    requires ScaleOk(rowptr, |v|, factors, multOrDivide, rowMap, true, n - 1)
    requires InjectiveRowMap(rowMap, n - 1, |rowptr| - 1)
    requires MapScaled(v, w, rowptr, factors, multOrDivide, rowMap, n - 1) && rowMap[n - 1] == -1
    ensures MapScaled(v, w, rowptr, factors, multOrDivide, rowMap, n)
  {
    forall k | 0 <= k < |v| && Untouched(rowMap, rowptr, n, k)
      ensures w[k] == v[k]
    {
      assert Untouched(rowMap, rowptr, n - 1, k);
    }
  }

  /** With a row map that names each stored row at most once, on
      nondecreasing row pointers, every stored value of the row that
      requested row i maps to ends up multiplied by row i's factor exactly
      once, and slots of no mapped row (skipped rows included) are left
      alone. */
  lemma {:induction false} ScaledRowsMapEntries(v: seq<real>, rowptr: seq<int>, factors: seq<real>,
                                                multOrDivide: int, rowMap: seq<int>, n: int)
    requires ScaleOk(rowptr, |v|, factors, multOrDivide, rowMap, true, n)
    requires Pointers(rowptr, |rowptr| - 1, |v|) && InjectiveRowMap(rowMap, n, |rowptr| - 1)
    ensures MapScaled(v, ScaledRows(v, rowptr, factors, multOrDivide, rowMap, true, n),
                      rowptr, factors, multOrDivide, rowMap, n)
    decreases n
  {
    if n > 0 {
      assert ScaleOk(rowptr, |v|, factors, multOrDivide, rowMap, true, n - 1);
      assert InjectiveRowMap(rowMap, n - 1, |rowptr| - 1);
      ScaledRowsMapEntries(v, rowptr, factors, multOrDivide, rowMap, n - 1);
      var w := ScaledRows(v, rowptr, factors, multOrDivide, rowMap, true, n - 1);
      if rowMap[n - 1] != -1 {
        MapScaledStep(v, w, rowptr, factors, multOrDivide, rowMap, n);
      } else {
        MapScaledSkip(v, w, rowptr, factors, multOrDivide, rowMap, n);
      }
    }
  }

  /** The row with slot k, when k lies inside the rows' span. */
  lemma {:induction false} RowContaining(rowptr: seq<int>, len: int, n: int, k: int) returns (i: int)
    requires Pointers(rowptr, n, len) && rowptr[0] <= k < rowptr[n]
    ensures 0 <= i < n && rowptr[i] <= k < rowptr[i + 1]
    decreases n
  {
    if k >= rowptr[n - 1] {
      i := n - 1;
    } else {
      assert Pointers(rowptr, n - 1, len);
      i := RowContaining(rowptr, len, n - 1, k);
    }
  }

  /** Multiplying by f and then by its reciprocal gives x back. */
  lemma TimesReciprocal(x: real, f: real)
    requires f != 0.0
    ensures Times(Times(x, f), Factor(f, 0)) == x
  {
    calc {
      Times(Times(x, f), Factor(f, 0));
      (x * f) * (1.0 / f);
      x * (f * (1.0 / f));
      x;
    }
  }

  /** Scaling by the factors and then dividing by the same factors gives
      back the original values (on nondecreasing row pointers, no row map). */
  lemma ScaleThenDivide(v: seq<real>, rowptr: seq<int>, factors: seq<real>, rowMap: seq<int>, n: int)
    requires ScaleOk(rowptr, |v|, factors, 0, rowMap, false, n) && Pointers(rowptr, n, |v|)
    ensures ScaleOk(rowptr, |v|, factors, 1, rowMap, false, n)
    ensures ScaledRows(ScaledRows(v, rowptr, factors, 1, rowMap, false, n), rowptr, factors, 0, rowMap, false, n) == v
  {
    assert ScaleOk(rowptr, |v|, factors, 1, rowMap, false, n);
    var w := ScaledRows(v, rowptr, factors, 1, rowMap, false, n);
    var u := ScaledRows(w, rowptr, factors, 0, rowMap, false, n);
    ScaledRowsEntries(v, rowptr, factors, 1, rowMap, n);
    ScaledRowsEntries(w, rowptr, factors, 0, rowMap, n);
    forall k | 0 <= k < |v| ensures u[k] == v[k] {
      if rowptr[0] <= k < rowptr[n] {
        var i := RowContaining(rowptr, |v|, n, k);
        assert w[k] == Times(v[k], factors[i]);
        TimesReciprocal(v[k], factors[i]);
      }
    }
  }
}
