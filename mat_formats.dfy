/**
  ML's matrix-format kernels (ml_mat_formats.c) over caller-supplied arrays.

  The C struct ML_CSR_MSRdata only bundles the pointers `columns`, `values`
  and `rowptr`; the kernels read through it, so here its arrays are passed
  directly. Every getrow kernel fills the caller's `columns`/`values` buffers
  (room for `allocatedSpace` entries) and `rowLengths`, and returns 1, or 0
  when the buffers are too small.
*/
module MatFormats {
  import opened MatFormatsSpec

  /** Copies src[lo..lo+n) into dst[off..off+n), leaving the rest of dst alone. */
  method CopySlots<T>(src: array<T>, lo: int, dst: array<T>, off: int, n: int)
    requires src != dst
    requires 0 <= n && 0 <= lo && lo + n <= src.Length && 0 <= off && off + n <= dst.Length
    modifies dst
    ensures dst[off..off + n] == src[lo..lo + n]
    ensures dst[..off] == old(dst[..off]) && dst[off + n..] == old(dst[off + n..])
  {
    var j := 0;
    while j < n
      invariant 0 <= j <= n
      invariant dst[off..off + j] == src[lo..lo + j]
      invariant dst[..off] == old(dst[..off]) && dst[off + n..] == old(dst[off + n..])
    {
      dst[off + j] := src[lo + j];
      j := j + 1;
    }
  }

  /** CSR_getrows (and CSR_getrow, which differs only in how it reaches the
      struct): row requestedRows[0] in storage order. The source ignores
      nRequestedRows and hands out the first requested row only. */
  method CsrGetrows(rowptr: array<int>, columns: array<int>, values: array<real>,
                    nRequestedRows: int, requestedRows: array<int>, allocatedSpace: int,
                    outColumns: array<int>, outValues: array<real>, rowLengths: array<int>)
    returns (status: int)
    requires requestedRows.Length >= 1 && rowLengths.Length >= 1
    requires RowRange(rowptr[..], columns.Length, requestedRows[0])
    requires rowptr[requestedRows[0] + 1] <= values.Length
    requires allocatedSpace <= outColumns.Length && allocatedSpace <= outValues.Length
    requires outColumns != rowptr && outColumns != columns && outColumns != requestedRows
    requires rowLengths != rowptr && rowLengths != columns && rowLengths != requestedRows
    requires rowLengths != outColumns && outValues != values
    modifies outColumns, outValues, rowLengths
    ensures var row := requestedRows[0];
      rowLengths[0] == rowptr[row + 1] - rowptr[row] &&
      status == (if rowLengths[0] > allocatedSpace then 0 else 1)
    ensures rowLengths[1..] == old(rowLengths[1..])
    ensures status == 0 ==> outColumns[..] == old(outColumns[..]) && outValues[..] == old(outValues[..])
    ensures status == 1 ==>
      var lo, hi, n := rowptr[requestedRows[0]], rowptr[requestedRows[0] + 1], rowLengths[0];
      outColumns[..n] == columns[lo..hi] && outValues[..n] == values[lo..hi] &&
      outColumns[n..] == old(outColumns[n..]) && outValues[n..] == old(outValues[n..])
  {
    var row := requestedRows[0];
    var itemp := rowptr[row];
    var n := rowptr[row + 1] - itemp;
    rowLengths[0] := n;
    if n > allocatedSpace {
      return 0;
    }
    CopySlots(columns, itemp, outColumns, 0, n);
    CopySlots(values, itemp, outValues, 0, n);
    return 1;
  }

  /** MSR_getrows: the diagonal (row, val[row]) first, then the stored
      off-diagonals of the row, so the row length is one more than the
      number of stored off-diagonals. */
  method MsrGetrows(bindx: array<int>, val: array<real>,
                    nRequestedRows: int, requestedRows: array<int>, allocatedSpace: int,
                    outColumns: array<int>, outValues: array<real>, rowLengths: array<int>)
    returns (status: int)
    requires requestedRows.Length >= 1 && rowLengths.Length >= 1
    requires RowRange(bindx[..], bindx.Length, requestedRows[0])
    requires RowRange(bindx[..], val.Length, requestedRows[0]) && requestedRows[0] < val.Length
    requires allocatedSpace <= outColumns.Length && allocatedSpace <= outValues.Length
    requires outColumns != bindx && outValues != val
    requires rowLengths != bindx && rowLengths != requestedRows && rowLengths != outColumns
    requires outColumns != requestedRows
    modifies outColumns, outValues, rowLengths
    ensures var row := requestedRows[0];
      rowLengths[0] == bindx[row + 1] - bindx[row] + 1 &&
      status == (if rowLengths[0] > allocatedSpace then 0 else 1)
    ensures rowLengths[1..] == old(rowLengths[1..])
    ensures status == 0 ==> outColumns[..] == old(outColumns[..]) && outValues[..] == old(outValues[..])
    ensures status == 1 ==>
      var row, n := requestedRows[0], rowLengths[0];
      outColumns[..n] == MsrRowCols(bindx[..], row) &&
      outValues[..n] == MsrRowVals(bindx[..], val[..], row) &&
      outColumns[n..] == old(outColumns[n..]) && outValues[n..] == old(outValues[n..])
  {
    var row := requestedRows[0];
    var start, finish := bindx[row], bindx[row + 1];
    var n := finish - start + 1;
    rowLengths[0] := n;
    if n > allocatedSpace {
      return 0;
    }
    outColumns[0] := row;
    outValues[0] := val[row];
    CopySlots(bindx, start, outColumns, 1, finish - start);
    CopySlots(val, start, outValues, 1, finish - start);
    assert outColumns[..n] == [row] + outColumns[1..n];
    assert outValues[..n] == [val[row]] + outValues[1..n];
    return 1;
  }

  /** MSR_get_ones_rows: the column pattern of MSR_getrows with every value 1. */
  method MsrGetOnesRows(bindx: array<int>,
                        nRequestedRows: int, requestedRows: array<int>, allocatedSpace: int,
                        outColumns: array<int>, outValues: array<real>, rowLengths: array<int>)
    returns (status: int)
    requires requestedRows.Length >= 1 && rowLengths.Length >= 1
    requires RowRange(bindx[..], bindx.Length, requestedRows[0])
    requires allocatedSpace <= outColumns.Length && allocatedSpace <= outValues.Length
    requires outColumns != bindx
    requires rowLengths != bindx && rowLengths != requestedRows && rowLengths != outColumns
    requires outColumns != requestedRows
    modifies outColumns, outValues, rowLengths
    ensures var row := requestedRows[0];
      rowLengths[0] == bindx[row + 1] - bindx[row] + 1 &&
      status == (if rowLengths[0] > allocatedSpace then 0 else 1)
    ensures rowLengths[1..] == old(rowLengths[1..])
    ensures status == 0 ==> outColumns[..] == old(outColumns[..]) && outValues[..] == old(outValues[..])
    ensures status == 1 ==>
      var row, n := requestedRows[0], rowLengths[0];
      outColumns[..n] == MsrRowCols(bindx[..], row) &&
      (forall k :: 0 <= k < n ==> outValues[k] == 1.0) &&
      outColumns[n..] == old(outColumns[n..]) && outValues[n..] == old(outValues[n..])
  {
    var row := requestedRows[0];
    var start, finish := bindx[row], bindx[row + 1];
    var n := finish - start + 1;
    rowLengths[0] := n;
    if n > allocatedSpace {
      return 0;
    }
    outColumns[0] := row;
    outValues[0] := 1.0;
    CopySlots(bindx, start, outColumns, 1, finish - start);
    var j := 1;
    while j < n
      invariant 1 <= j <= n
      modifies outValues
      invariant forall k :: 0 <= k < j ==> outValues[k] == 1.0
      invariant outValues[n..] == old(outValues[n..])
    {
      outValues[j] := 1.0;
      j := j + 1;
    }
    assert outColumns[..n] == [row] + outColumns[1..n];
    return 1;
  }

  /** cCSR_getrows: a CSR row whose values are stored as sign codes
      0, 1, 2 and handed out as 0, 1, -1. */
  method CCsrGetrows(rowptr: array<int>, columns: array<int>, codes: array<int>,
                     nRequestedRows: int, requestedRows: array<int>, allocatedSpace: int,
                     outColumns: array<int>, outValues: array<real>, rowLengths: array<int>)
    returns (status: int)
    requires requestedRows.Length >= 1 && rowLengths.Length >= 1
    requires RowRange(rowptr[..], columns.Length, requestedRows[0])
    requires rowptr[requestedRows[0] + 1] <= codes.Length
    requires forall k :: rowptr[requestedRows[0]] <= k < rowptr[requestedRows[0] + 1] ==> 0 <= codes[k] < 3
    requires allocatedSpace <= outColumns.Length && allocatedSpace <= outValues.Length
    requires outColumns != rowptr && outColumns != columns && outColumns != codes
    requires outColumns != requestedRows && rowLengths != outColumns
    requires rowLengths != rowptr && rowLengths != columns && rowLengths != codes && rowLengths != requestedRows
    modifies outColumns, outValues, rowLengths
    ensures var row := requestedRows[0];
      rowLengths[0] == rowptr[row + 1] - rowptr[row] &&
      status == (if rowLengths[0] > allocatedSpace then 0 else 1)
    ensures rowLengths[1..] == old(rowLengths[1..])
    ensures status == 0 ==> outColumns[..] == old(outColumns[..]) && outValues[..] == old(outValues[..])
    ensures status == 1 ==>
      var lo, hi, n := rowptr[requestedRows[0]], rowptr[requestedRows[0] + 1], rowLengths[0];
      outColumns[..n] == columns[lo..hi] && outValues[..n] == SignValues(codes[lo..hi]) &&
      outColumns[n..] == old(outColumns[n..]) && outValues[n..] == old(outValues[n..])
  {
    var row := requestedRows[0];
    var itemp := rowptr[row];
    var n := rowptr[row + 1] - itemp;
    rowLengths[0] := n;
    if n > allocatedSpace {
      return 0;
    }
    CopySlots(columns, itemp, outColumns, 0, n);
    var j := 0;
    while j < n
      invariant 0 <= j <= n
      modifies outValues
      invariant forall k :: 0 <= k < j ==> outValues[k] == Sgn(codes[itemp + k])
      invariant outValues[n..] == old(outValues[n..])
    {
      outValues[j] := Sgn(codes[itemp + j]);
      j := j + 1;
    }
    ghost var signs := SignValues(codes[itemp..itemp + n]);
    assert outValues[..n] == signs by {
      forall k | 0 <= k < n ensures outValues[k] == signs[k] {
        assert codes[itemp..itemp + n][k] == codes[itemp + k];
      }
    }
    return 1;
  }

  /** VECTOR_getrows: the data is a vector, seen as a one-column matrix;
      every requested row has length 1, column 0 and value temp[row]. It
      fails, writing nothing, when there is room for fewer entries than rows. */
  method VectorGetrows(temp: array<real>,
                       nRequestedRows: int, requestedRows: array<int>, allocatedSpace: int,
                       outColumns: array<int>, outValues: array<real>, rowLengths: array<int>)
    returns (status: int)
    requires 0 <= nRequestedRows <= requestedRows.Length
    requires nRequestedRows <= allocatedSpace ==>
      nRequestedRows <= rowLengths.Length && allocatedSpace <= outColumns.Length &&
      allocatedSpace <= outValues.Length &&
      forall i :: 0 <= i < nRequestedRows ==> 0 <= requestedRows[i] < temp.Length
    requires outValues != temp
    requires rowLengths != requestedRows && rowLengths != outColumns && outColumns != requestedRows
    modifies outColumns, outValues, rowLengths
    ensures status == (if allocatedSpace < nRequestedRows then 0 else 1)
    ensures status == 0 ==>
      outColumns[..] == old(outColumns[..]) && outValues[..] == old(outValues[..]) &&
      rowLengths[..] == old(rowLengths[..])
    ensures status == 1 ==>
      forall i :: 0 <= i < nRequestedRows ==>
        rowLengths[i] == 1 && outColumns[i] == 0 && outValues[i] == temp[requestedRows[i]]
    ensures status == 1 ==>
      rowLengths[nRequestedRows..] == old(rowLengths[nRequestedRows..]) &&
      outColumns[nRequestedRows..] == old(outColumns[nRequestedRows..]) &&
      outValues[nRequestedRows..] == old(outValues[nRequestedRows..])
  {
    if allocatedSpace < nRequestedRows {
      return 0;
    }
    var i := 0;
    while i < nRequestedRows
      invariant 0 <= i <= nRequestedRows
      invariant forall k :: 0 <= k < i ==>
        rowLengths[k] == 1 && outColumns[k] == 0 && outValues[k] == temp[requestedRows[k]]
      invariant rowLengths[i..] == old(rowLengths[i..])
      invariant outColumns[i..] == old(outColumns[i..])
      invariant outValues[i..] == old(outValues[i..])
    {
      rowLengths[i] := 1;
      outColumns[i] := 0;
      outValues[i] := temp[requestedRows[i]];
      i := i + 1;
    }
    return 1;
  }

  /** The arrays of VBR_cnst_blk_getrows hold the matrix `m`. */
  ghost predicate Holds(m: Vbr, val: array<real>, cpntr: array<int>, bindx: array<int>, indx: array<int>)
    reads val, cpntr, bindx, indx
  {
    m.val == val[..] && m.cpntr == cpntr[..] && m.bindx == bindx[..] && m.indx == indx[..]
  }

  /** The innermost loop of VBR_cnst_blk_getrows: `n` consecutive columns
      from `c0` and `n` values read from `start` with stride `stride`,
      written at `count`. */
  method WriteStride(val: array<real>, start: int, stride: int, n: int, c0: int, count: int,
                     outColumns: array<int>, outValues: array<real>)
    returns (newCount: int)
    requires 0 <= n && StrideIn(val.Length, start, stride, n)
    requires 0 <= count && count + n <= outColumns.Length && count + n <= outValues.Length
    requires outValues != val
    modifies outColumns, outValues
    ensures newCount == count + n
    ensures outColumns[..] == old(outColumns[..count]) + seq(n, t => c0 + t) + old(outColumns[newCount..])
    ensures outValues[..] ==
      old(outValues[..count]) + StrideVals(old(val[..]), start, stride, n) + old(outValues[newCount..])
  {
    ghost var cols0, vals0, vs := outColumns[..], outValues[..], val[..];
    ghost var doneVals: seq<real> := [];
    var at := start;
    newCount := count;
    var j := 0;
    while j < n
      invariant 0 <= j <= n && newCount == count + j && StrideIn(|vs|, at, stride, n - j)
      invariant doneVals + StrideVals(vs, at, stride, n - j) == StrideVals(vs, start, stride, n)
      invariant forall t :: count <= t < newCount ==> outColumns[t] == c0 + (t - count)
      invariant forall t :: count <= t < newCount ==> outValues[t] == doneVals[t - count]
      invariant forall t :: 0 <= t < count || newCount <= t < |cols0| ==> outColumns[t] == cols0[t]
      invariant forall t :: 0 <= t < count || newCount <= t < |vals0| ==> outValues[t] == vals0[t]
    {
      assert doneVals + [vs[at]] + StrideVals(vs, at + stride, stride, n - j - 1) ==
        doneVals + StrideVals(vs, at, stride, n - j);
      outColumns[newCount] := c0 + j;
      outValues[newCount] := val[at];
      doneVals := doneVals + [vs[at]];
      newCount := newCount + 1;
      at := at + stride;
      j := j + 1;
    }
    assert doneVals == StrideVals(vs, start, stride, n);
    assert outColumns[..] == cols0[..count] + seq(n, t => c0 + t) + cols0[newCount..];
    assert outValues[..] == vals0[..count] + doneVals + vals0[newCount..];
  }

  /** Block `i` of the block row of `row` written at `count`, one point
      column after the other; `nRows` and `rowOffset` are that block row's
      height and `row`'s place in it. */
  method WriteBlock(ghost m: Vbr, val: array<real>, cpntr: array<int>, bindx: array<int>,
                    indx: array<int>, row: int, nRows: int, rowOffset: int, i: int, count: int,
                    outColumns: array<int>, outValues: array<real>)
    returns (newCount: int)
    requires Holds(m, val, cpntr, bindx, indx) && InBlockRow(m, row, nRows, rowOffset)
    requires m.bpntr[BlkRow(m, row)] <= i < m.bpntr[BlkRow(m, row) + 1]
    requires 0 <= count && count + Step(m) <= outColumns.Length && count + Step(m) <= outValues.Length
    requires outValues != val && outColumns !in {cpntr, bindx, indx}
    modifies outColumns, outValues
    ensures newCount == count + Step(m)
    ensures outColumns[..] == old(outColumns[..count]) + BlockCols(m, i, row) + old(outColumns[newCount..])
    ensures outValues[..] == old(outValues[..count]) + BlockVals(m, i, row) + old(outValues[newCount..])
  {
    assert BlockOk(m, row, i);
    var ii := bindx[i];
    var nCols := cpntr[ii + 1] - cpntr[ii];
    newCount := WriteStride(val, indx[i] + rowOffset, nRows, nCols, cpntr[ii], count,
                            outColumns, outValues);
  }

  /** One pass of the block loop of VBR_cnst_blk_getrows: with the blocks of
      `row` before slot `i` written at `count`, block `i` is written next. */
  method AppendBlock(ghost m: Vbr, val: array<real>, cpntr: array<int>, bindx: array<int>,
                     indx: array<int>, row: int, nRows: int, rowOffset: int, i: int,
                     count: int, at: int, ghost cols0: seq<int>, ghost vals0: seq<real>,
                     outColumns: array<int>, outValues: array<real>)
    returns (newCount: int)
    requires Holds(m, val, cpntr, bindx, indx) && InBlockRow(m, row, nRows, rowOffset)
    requires m.bpntr[BlkRow(m, row)] <= i < m.bpntr[BlkRow(m, row) + 1]
    requires 0 <= count && at == count + |RowCols(m, row, i)| && at + Step(m) <= |cols0|
    requires at + Step(m) <= |vals0|
    requires outColumns[..] == cols0[..count] + RowCols(m, row, i) + cols0[at..]
    requires outValues[..] == vals0[..count] + RowVals(m, row, i) + vals0[at..]
    requires outValues != val && outColumns !in {cpntr, bindx, indx}
    modifies outColumns, outValues
    ensures newCount == at + Step(m)
    ensures outColumns[..] == cols0[..count] + RowCols(m, row, i + 1) + cols0[newCount..]
    ensures outValues[..] == vals0[..count] + RowVals(m, row, i + 1) + vals0[newCount..]
  {
    ghost var rc, rv := RowCols(m, row, i), RowVals(m, row, i);
    ghost var bc, bv := BlockCols(m, i, row), BlockVals(m, i, row);
    ghost var s1, v1 := outColumns[..], outValues[..];
    newCount := WriteBlock(m, val, cpntr, bindx, indx, row, nRows, rowOffset, i, at,
                           outColumns, outValues);
    WriteBlockAt(cols0, count, rc, bc, s1, outColumns[..]);
    WriteBlockAt(vals0, count, rv, bv, v1, outValues[..]);
    assert RowCols(m, row, i + 1) == rc + bc;
    assert RowVals(m, row, i + 1) == rv + bv;
  }

  /** The block loop of VBR_cnst_blk_getrows: every block of point row `row`
      written at `count`, block after block. */
  method WriteRow(ghost m: Vbr, val: array<real>, cpntr: array<int>, bindx: array<int>,
                  indx: array<int>, bpntr: array<int>, row: int, blkRow: int, nRows: int,
                  rowOffset: int, count: int, outColumns: array<int>, outValues: array<real>)
    returns (newCount: int)
    requires Holds(m, val, cpntr, bindx, indx) && m.bpntr == bpntr[..]
    requires InBlockRow(m, row, nRows, rowOffset) && blkRow == BlkRow(m, row)
    requires 0 <= count
    requires count + VbrRowLen(m, row) <= outColumns.Length
    requires count + VbrRowLen(m, row) <= outValues.Length
    requires outValues != val && outColumns !in {cpntr, bindx, indx, bpntr}
    modifies outColumns, outValues
    ensures newCount == count + VbrRowLen(m, row)
    ensures outColumns[..newCount] == old(outColumns[..count]) + VbrRowCols(m, row)
    ensures outColumns[newCount..] == old(outColumns[newCount..])
    ensures outValues[..newCount] == old(outValues[..count]) + VbrRowVals(m, row)
    ensures outValues[newCount..] == old(outValues[newCount..])
  {
    var lo, hi := bpntr[blkRow], bpntr[blkRow + 1];
    ghost var cols0, vals0 := outColumns[..], outValues[..];
    newCount := count;
    var i := lo;
    while i < hi
      invariant lo <= i <= hi && newCount == count + |RowCols(m, row, i)|
      invariant newCount <= count + VbrRowLen(m, row)
      invariant outColumns[..] == cols0[..count] + RowCols(m, row, i) + cols0[newCount..]
      invariant outValues[..] == vals0[..count] + RowVals(m, row, i) + vals0[newCount..]
    {
      RowFits(m, row, i);
      newCount := AppendBlock(m, val, cpntr, bindx, indx, row, nRows, rowOffset, i, count, newCount,
                              cols0, vals0, outColumns, outValues);
      i := i + 1;
    }
    SpliceParts(cols0, count, RowCols(m, row, hi), outColumns[..]);
    SpliceParts(vals0, count, RowVals(m, row, hi), outValues[..]);
  }

  /** The rows before rows[k] handed out, rows[k] (that is `row`) is
      handed out next, right after them. */
  method WriteRequestedRow(ghost m: Vbr, ghost rows: seq<int>, ghost k: int, ghost lengths: seq<int>,
                           val: array<real>, cpntr: array<int>, bindx: array<int>, indx: array<int>,
                           bpntr: array<int>, row: int, blkRow: int, nRows: int, rowOffset: int,
                           count: int, outColumns: array<int>, outValues: array<real>)
    returns (newCount: int)
    requires Holds(m, val, cpntr, bindx, indx) && m.bpntr == bpntr[..]
    requires RowsOk(m, rows) && 0 <= k < |rows| && k < |lengths| && row == rows[k]
    requires InBlockRow(m, row, nRows, rowOffset) && blkRow == BlkRow(m, row)
    requires count == ReqLen(m, rows, k) && lengths[k] == ReqRowLen(m, rows, k)
    requires count + ReqRowLen(m, rows, k) <= outColumns.Length
    requires count + ReqRowLen(m, rows, k) <= outValues.Length
    requires RowsWritten(m, rows, k, lengths, outColumns[..], outValues[..])
    requires outValues != val && outColumns !in {cpntr, bindx, indx, bpntr}
    modifies outColumns, outValues
    ensures newCount == ReqLen(m, rows, k + 1)
    ensures RowsWritten(m, rows, k + 1, lengths, outColumns[..], outValues[..])
    ensures SameFrom(outColumns[..], old(outColumns[..]), newCount)
    ensures SameFrom(outValues[..], old(outValues[..]), newCount)
  {
    ghost var cols0, vals0 := outColumns[..], outValues[..];
    ghost var rc, rv := ReqRowCols(m, rows, k), ReqRowVals(m, rows, k);
    assert cols0[..count] == ReqCols(m, rows, k) && vals0[..count] == ReqVals(m, rows, k);
    assert VbrRowCols(m, row) == rc && VbrRowVals(m, row) == rv;
    newCount := WriteRow(m, val, cpntr, bindx, indx, bpntr, row, blkRow, nRows, rowOffset, count,
                         outColumns, outValues);
    assert newCount == ReqLen(m, rows, k + 1);
    RowsWrittenNext(m, rows, k, lengths, outColumns[..], outValues[..]);
  }

  /** One pass of VBR_cnst_blk_getrows for rows[k] (that is `row`), with
      the rows before it handed out from the buffers `lengths0`, `cols0`,
      `vals0`: report its length, then hand it out behind the rows before it
      when it fits in `allocatedSpace`; `fits` says which happened. When it
      does not fit nothing but the length is written, and that is the
      kernel's failure outcome. */
  method GetRequestedRow(ghost m: Vbr, ghost rows: seq<int>, k: int,
                         ghost lengths0: seq<int>, ghost cols0: seq<int>, ghost vals0: seq<real>,
                         val: array<real>, rpntr: array<int>, cpntr: array<int>, bindx: array<int>,
                         indx: array<int>, bpntr: array<int>, step: int, row: int,
                         allocatedSpace: int, count: int,
                         outColumns: array<int>, outValues: array<real>, rowLengths: array<int>)
    returns (fits: bool, newCount: int)
    requires Holds(m, val, cpntr, bindx, indx) && m.rpntr == rpntr[..] && m.bpntr == bpntr[..]
    requires RowsOk(m, rows) && 0 <= k < |rows| && k < rowLengths.Length && row == rows[k]
    requires |m.rpntr| >= 2 && step == m.rpntr[1] - m.rpntr[0]
    requires count == ReqLen(m, rows, k) && count <= allocatedSpace
    requires allocatedSpace <= outColumns.Length && allocatedSpace <= outValues.Length
    requires Handed(m, rows, k, lengths0, cols0, vals0, rowLengths[..], outColumns[..], outValues[..])
    requires outValues != val && outColumns !in {rpntr, cpntr, bindx, indx, bpntr, rowLengths}
    requires rowLengths !in {rpntr, cpntr, bindx, indx, bpntr}
    modifies outColumns, outValues, rowLengths
    ensures fits <==> ReqLen(m, rows, k + 1) <= allocatedSpace
    ensures rowLengths[..] == old(rowLengths[..])[k := ReqRowLen(m, rows, k)]
    ensures fits ==> (newCount == ReqLen(m, rows, k + 1) &&
                      Handed(m, rows, k + 1, lengths0, cols0, vals0,
                             rowLengths[..], outColumns[..], outValues[..]))
    ensures !fits ==> (outColumns[..] == old(outColumns[..]) && outValues[..] == old(outValues[..]) &&
                       VbrGetrowsOutcome(m, rows, allocatedSpace, 0, lengths0, cols0, vals0,
                                         rowLengths[..], outColumns[..], outValues[..]))
  {
    assert VbrRowOk(m, row);
    BlockRowOf(m, row, step);
    var blkRow := row / step;
    var nRows := rpntr[blkRow + 1] - rpntr[blkRow];
    var rowOffset := row - rpntr[blkRow];
    RowGeometry(m, row, step, blkRow, nRows, rowOffset);
    ghost var lengths1, cols1, vals1 := rowLengths[..], outColumns[..], outValues[..];
    rowLengths[k] := step * (bpntr[blkRow + 1] - bpntr[blkRow]);
    VbrRowLenIsProduct(m, row);
    assert rowLengths[..] == lengths1[k := ReqRowLen(m, rows, k)];
    RowsWrittenLength(m, rows, k, lengths1, cols1, vals1);
    assert ReqLen(m, rows, k + 1) == count + rowLengths[k];
    if count + rowLengths[k] > allocatedSpace {
      GetrowsStopped(m, rows, allocatedSpace, k, lengths0, cols0, vals0, lengths1, cols1, vals1);
      return false, count;
    }
    newCount := WriteRequestedRow(m, rows, k, rowLengths[..], val, cpntr, bindx, indx, bpntr,
                                  row, blkRow, nRows, rowOffset, count, outColumns, outValues);
    HandedNext(m, rows, k, lengths0, cols0, vals0, lengths1, cols1, vals1,
               rowLengths[..], outColumns[..], outValues[..]);
    fits := true;
  }

  /** The row loop of VBR_cnst_blk_getrows, over the matrix `m` held in the
      arrays, from the buffers `lengths0`, `cols0`, `vals0`. */
  method GetRequestedRows(ghost m: Vbr, ghost rows: seq<int>,
                          ghost lengths0: seq<int>, ghost cols0: seq<int>, ghost vals0: seq<real>,
                          val: array<real>, rpntr: array<int>, cpntr: array<int>, bindx: array<int>,
                          indx: array<int>, bpntr: array<int>,
                          nRequestedRows: int, requestedRows: array<int>, allocatedSpace: int,
                          outColumns: array<int>, outValues: array<real>, rowLengths: array<int>)
    returns (status: int)
    requires Holds(m, val, cpntr, bindx, indx) && m.rpntr == rpntr[..] && m.bpntr == bpntr[..]
    requires 0 <= nRequestedRows <= requestedRows.Length && rows == requestedRows[..nRequestedRows]
    requires RowsOk(m, rows) && nRequestedRows <= rowLengths.Length && |m.rpntr| >= 2
    requires 0 <= allocatedSpace <= outColumns.Length && allocatedSpace <= outValues.Length
    requires Handed(m, rows, 0, lengths0, cols0, vals0, rowLengths[..], outColumns[..], outValues[..])
    requires outValues != val
    requires outColumns !in {bindx, rpntr, cpntr, bpntr, indx, requestedRows, rowLengths}
    requires rowLengths !in {bindx, rpntr, cpntr, bpntr, indx, requestedRows}
    modifies outColumns, outValues, rowLengths
    ensures VbrGetrowsOutcome(m, rows, allocatedSpace, status, lengths0, cols0, vals0,
                              rowLengths[..], outColumns[..], outValues[..])
  {
    var step := rpntr[1] - rpntr[0];
    var count := 0;
    var k := 0;
    while k < nRequestedRows
      invariant 0 <= k <= nRequestedRows
      invariant count == ReqLen(m, rows, k) && count <= allocatedSpace
      invariant Handed(m, rows, k, lengths0, cols0, vals0, rowLengths[..], outColumns[..], outValues[..])
    {
      var fits;
      fits, count := GetRequestedRow(m, rows, k, lengths0, cols0, vals0,
                                     val, rpntr, cpntr, bindx, indx, bpntr, step,
                                     requestedRows[k], allocatedSpace, count,
                                     outColumns, outValues, rowLengths);
      if !fits {
        return 0;
      }
      k := k + 1;
    }
    GetrowsDone(m, rows, allocatedSpace, lengths0, cols0, vals0,
                rowLengths[..], outColumns[..], outValues[..]);
    return 1;
  }

  /** VBR_cnst_blk_getrows: every requested point row, one after the other.
      A row's reported length is the block size times its number of blocks;
      the kernel stops with 0 as soon as the running count would pass
      `allocatedSpace`, so it succeeds exactly when all rows fit; nothing
      past the rows handed out is written. */
  method VbrCnstBlkGetrows(bindx: array<int>, val: array<real>, rpntr: array<int>,
                           cpntr: array<int>, bpntr: array<int>, indx: array<int>,
                           nRequestedRows: int, requestedRows: array<int>, allocatedSpace: int,
                           outColumns: array<int>, outValues: array<real>, rowLengths: array<int>)
    returns (status: int)
    requires 0 <= nRequestedRows <= requestedRows.Length && nRequestedRows <= rowLengths.Length
    requires 0 <= allocatedSpace <= outColumns.Length && allocatedSpace <= outValues.Length
    requires rpntr.Length >= 2
    requires RowsOk(Vbr(bindx[..], val[..], rpntr[..], cpntr[..], bpntr[..], indx[..]),
                    requestedRows[..nRequestedRows])
    requires outValues != val
    requires outColumns !in {bindx, rpntr, cpntr, bpntr, indx, requestedRows, rowLengths}
    requires rowLengths !in {bindx, rpntr, cpntr, bpntr, indx, requestedRows}
    modifies outColumns, outValues, rowLengths
    ensures VbrGetrowsOutcome(Vbr(bindx[..], val[..], rpntr[..], cpntr[..], bpntr[..], indx[..]),
                              requestedRows[..nRequestedRows], allocatedSpace, status,
                              old(rowLengths[..]), old(outColumns[..]), old(outValues[..]),
                              rowLengths[..], outColumns[..], outValues[..])
  {
    ghost var m := Vbr(bindx[..], val[..], rpntr[..], cpntr[..], bpntr[..], indx[..]);
    ghost var rows := requestedRows[..nRequestedRows];
    ghost var lengths0, cols0, vals0 := rowLengths[..], outColumns[..], outValues[..];
    assert Handed(m, rows, 0, lengths0, cols0, vals0, lengths0, cols0, vals0);
    status := GetRequestedRows(m, rows, lengths0, cols0, vals0, val, rpntr, cpntr, bindx, indx, bpntr,
                               nRequestedRows, requestedRows, allocatedSpace,
                               outColumns, outValues, rowLengths);
  }
}
