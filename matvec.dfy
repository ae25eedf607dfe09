/**
  The matrix-vector kernels of ml_mat_formats.c on their communication-free
  paths: the products accumulate a running `sum` per row and store it in
  `ap[i]`; the transposed products clear `ap` and scatter every row into it.
*/
module Matvec {
  import opened MatFormatsSpec
  import opened MatvecSpec

  /** localCSR_matvec: ap[i] = sum of values[k] * p[columns[k]] over row i,
      for the `olen` stored rows. */
  method LocalCsrMatvec(rowptr: array<int>, columns: array<int>, values: array<real>,
                        p: array<real>, olen: int, ap: array<real>)
    requires 0 <= olen <= ap.Length && CsrOk(rowptr[..], columns[..], values[..], olen, p.Length)
    requires ap != p && ap != values
    modifies ap
    ensures forall i :: 0 <= i < olen ==>
      ap[i] == CsrRowProduct(rowptr[..], columns[..], values[..], olen, p[..], i)
    ensures ap[olen..] == old(ap[olen..])
  {
    var i := 0;
    while i < olen
      invariant 0 <= i <= olen
      invariant forall t :: 0 <= t < i ==>
        ap[t] == CsrRowProduct(rowptr[..], columns[..], values[..], olen, p[..], t)
      invariant ap[olen..] == old(ap[olen..])
    {
      CsrRowColumns(rowptr[..], columns[..], olen, p.Length, i);
      var sum := 0.0;
      var k := rowptr[i];
      while k < rowptr[i + 1]
        invariant rowptr[i] <= k <= rowptr[i + 1]
        invariant sum == Dot(columns[..], values[..], p[..], rowptr[i], k)
      {
        sum := sum + values[k] * p[columns[k]];
        k := k + 1;
      }
      ap[i] := sum;
      i := i + 1;
    }
  }

  /** The unrolled inner loop of MSR_matvec: slots are added to `sum0` ten
      at a time, starting at `lo`, while more than ten remain before `hi`. */
  method AccumulateTens(bindx: array<int>, val: array<real>, p: array<real>,
                        sum0: real, lo: int, hi: int)
    returns (sum: real, j: int)
    requires ColumnsIn(bindx[..], lo, hi, p.Length) && hi <= val.Length
    ensures lo <= j <= hi && hi <= j + 10 && (j - lo) % 10 == 0
    ensures sum == sum0 + Dot(bindx[..], val[..], p[..], lo, j)
  {
    sum, j := sum0, lo;
    while j + 10 < hi
      invariant lo <= j <= hi && (j - lo) % 10 == 0
      invariant sum == sum0 + Dot(bindx[..], val[..], p[..], lo, j)
    {
      DotStep10(bindx[..], val[..], p[..], lo, j);
      sum := sum + (val[j + 9] * p[bindx[j + 9]] + val[j + 8] * p[bindx[j + 8]] +
                    val[j + 7] * p[bindx[j + 7]] + val[j + 6] * p[bindx[j + 6]] +
                    val[j + 5] * p[bindx[j + 5]] + val[j + 4] * p[bindx[j + 4]] +
                    val[j + 3] * p[bindx[j + 3]] + val[j + 2] * p[bindx[j + 2]] +
                    val[j + 1] * p[bindx[j + 1]] + val[j] * p[bindx[j]]);
      j := j + 10;
    }
  }

  /** Both inner loops of MSR_matvec for one row: after the unrolled loop,
      the remaining slots before `hi` are added one at a time, so the row's
      slots [lo, hi) are all added to `sum0`. */
  method AccumulateRow(bindx: array<int>, val: array<real>, p: array<real>,
                       sum0: real, lo: int, hi: int)
    returns (sum: real)
    requires ColumnsIn(bindx[..], lo, hi, p.Length) && hi <= val.Length
    ensures sum == sum0 + Dot(bindx[..], val[..], p[..], lo, hi)
  {
    var j;
    sum, j := AccumulateTens(bindx, val, p, sum0, lo, hi);
    while j < hi
      invariant lo <= j <= hi
      invariant sum == sum0 + Dot(bindx[..], val[..], p[..], lo, j)
    {
      sum := sum + val[j] * p[bindx[j]];
      j := j + 1;
    }
  }

  /** MSR_matvec: ap[i] = val[i] * p[i] plus the off-diagonal products of row
      i, with the off-diagonal loop unrolled ten slots at a time. The source
      exits the program when `ilen` matches neither `olen` nor the row count;
      here that path returns false and leaves `ap` alone. */
  method MsrMatvec(bindx: array<int>, val: array<real>, nrows: int,
                   ilen: int, p: array<real>, olen: int, ap: array<real>)
    returns (ok: bool)
    requires ValidMsr(bindx[..], val[..], nrows) && nrows <= p.Length && nrows <= ap.Length
    requires ColumnsIn(bindx[..], bindx[0], bindx[nrows], p.Length)
    requires ap != p && ap != val
    modifies ap
    ensures ok <==> (ilen == olen || ilen == nrows)
    ensures !ok ==> ap[..] == old(ap[..])
    ensures ok ==> forall i :: 0 <= i < nrows ==> ap[i] == MsrRowProduct(bindx[..], val[..], nrows, p[..], i)
    ensures ap[nrows..] == old(ap[nrows..])
  {
    if ilen != olen && ilen != nrows {
      return false;
    }
    var j := bindx[0];
    var i := 0;
    while i < nrows
      invariant 0 <= i <= nrows && j == bindx[i]
      invariant forall t :: 0 <= t < i ==> ap[t] == MsrRowProduct(bindx[..], val[..], nrows, p[..], t)
      invariant ap[nrows..] == old(ap[nrows..])
    {
      assert bindx[0] <= bindx[i] <= bindx[i + 1] <= bindx[nrows];
      var sum := AccumulateRow(bindx, val, p, val[i] * p[i], j, bindx[i + 1]);
      j := bindx[i + 1];
      ap[i] := sum;
      i := i + 1;
    }
    return true;
  }

  /** CSR_ones_matvec: ap[i] = sum of p[columns[k]] over row i, for the
      `nstored` stored rows; the stored values are never read. */
  method CsrOnesMatvec(rowptr: array<int>, columns: array<int>, nstored: int,
                       p: array<real>, ap: array<real>)
    requires 0 <= nstored <= ap.Length && CsrPatternOk(rowptr[..], columns[..], nstored, p.Length)
    requires ap != p
    modifies ap
    ensures forall i :: 0 <= i < nstored ==>
      ap[i] == OnesRowProduct(rowptr[..], columns[..], nstored, p[..], i)
    ensures ap[nstored..] == old(ap[nstored..])
  {
    var i := 0;
    while i < nstored
      invariant 0 <= i <= nstored
      invariant forall t :: 0 <= t < i ==>
        ap[t] == OnesRowProduct(rowptr[..], columns[..], nstored, p[..], t)
      invariant ap[nstored..] == old(ap[nstored..])
    {
      CsrRowColumns(rowptr[..], columns[..], nstored, p.Length, i);
      var sum := 0.0;
      var k := rowptr[i];
      while k < rowptr[i + 1]
        invariant rowptr[i] <= k <= rowptr[i + 1]
        invariant sum == OnesDot(columns[..], p[..], rowptr[i], k)
      {
        sum := sum + p[columns[k]];
        k := k + 1;
      }
      ap[i] := sum;
      i := i + 1;
    }
  }

  /** Clears ap[0..olen), as both transposed products do first. */
  method ClearOutput(ap: array<real>, olen: int)
    requires 0 <= olen <= ap.Length
    modifies ap
    ensures ap[..olen] == Zeros(olen) && ap[olen..] == old(ap[olen..])
  {
    var i := 0;
    while i < olen
      invariant 0 <= i <= olen
      invariant ap[..i] == Zeros(i) && ap[olen..] == old(ap[olen..])
    {
      ap[i] := 0.0;
      i := i + 1;
      assert ap[..i] == ap[..i - 1] + [0.0];
    }
  }

  /** The inner loop of sCSR_trans_matvec for one row: values[k] * x added
      into ap[columns[k]] for the slots [lo, hi). */
  method AddRowTransposed(columns: array<int>, values: array<real>, x: real, lo: int, hi: int,
                          olen: int, ap: array<real>)
    requires 0 <= lo <= hi <= columns.Length && hi <= values.Length && 0 <= olen <= ap.Length
    requires ColumnsIn(columns[..], lo, hi, olen) && ap != values
    modifies ap
    ensures ap[..olen] == ScatterRow(old(ap[..olen]), columns[..], values[..], x, lo, hi)
    ensures ap[olen..] == old(ap[olen..])
  {
    ghost var before, vals := ap[..olen], values[..];
    var k := lo;
    while k < hi
      invariant lo <= k <= hi
      invariant ap[..olen] == ScatterRow(before, columns[..], vals, x, lo, k)
      invariant ap[olen..] == old(ap[olen..])
    {
      ghost var prev := ap[..olen];
      var c := columns[k];
      var term := values[k] * x;
      assert term == Times(vals[k], x);
      ap[c] := ap[c] + term;
      assert ap[..olen] == prev[c := prev[c] + Times(vals[k], x)];
      k := k + 1;
    }
  }

  /** sCSR_trans_matvec: ap = A^T p for the `ilen` stored rows, by adding
      values[k] * p[i] into ap[columns[k]] row after row. */
  method SCsrTransMatvec(rowptr: array<int>, columns: array<int>, values: array<real>,
                         ilen: int, p: array<real>, olen: int, ap: array<real>)
    requires 0 <= ilen <= p.Length && 0 <= olen <= ap.Length
    requires CsrOk(rowptr[..], columns[..], values[..], ilen, olen)
    requires ap != p && ap != values
    modifies ap
    ensures ap[..olen] == Scatter(Zeros(olen), rowptr[..], columns[..], values[..], p[..], ilen)
    ensures ap[olen..] == old(ap[olen..])
  {
    ClearOutput(ap, olen);
    var i := 0;
    while i < ilen
      invariant 0 <= i <= ilen && CsrOk(rowptr[..], columns[..], values[..], i, olen)
      invariant ap[..olen] == Scatter(Zeros(olen), rowptr[..], columns[..], values[..], p[..], i)
      invariant ap[olen..] == old(ap[olen..])
    {
      CsrRowColumns(rowptr[..], columns[..], ilen, olen, i);
      AddRowTransposed(columns, values, p[i], rowptr[i], rowptr[i + 1], olen, ap);
      CsrPrefix(rowptr[..], columns[..], values[..], ilen, olen, i + 1);
      i := i + 1;
    }
  }

  /** The inner loop of cCSR_trans_matvec for one row: sgn[codes[k]] * x
      added into ap[columns[k]] for the slots [lo, hi). */
  method AddSignRowTransposed(columns: array<int>, codes: array<int>, x: real, lo: int, hi: int,
                              olen: int, ap: array<real>)
    requires 0 <= lo <= hi <= columns.Length && hi <= codes.Length && 0 <= olen <= ap.Length
    requires forall k :: 0 <= k < codes.Length ==> 0 <= codes[k] < 3
    requires ColumnsIn(columns[..], lo, hi, olen)
    modifies ap
    ensures ap[..olen] == ScatterRow(old(ap[..olen]), columns[..], SignValues(codes[..]), x, lo, hi)
    ensures ap[olen..] == old(ap[olen..])
  {
    ghost var before, vals := ap[..olen], SignValues(codes[..]);
    var sgn := [0.0, 1.0, -1.0];
    var k := lo;
    while k < hi
      invariant lo <= k <= hi
      invariant ap[..olen] == ScatterRow(before, columns[..], vals, x, lo, k)
      invariant ap[olen..] == old(ap[olen..])
    {
      ghost var prev := ap[..olen];
      var c := columns[k];
      assert sgn[codes[k]] == vals[k];
      var term := sgn[codes[k]] * x;
      assert term == Times(vals[k], x);
      ap[c] := ap[c] + term;
      assert ap[..olen] == prev[c := prev[c] + Times(vals[k], x)];
      k := k + 1;
    }
  }

  /** cCSR_trans_matvec: as sCSR_trans_matvec, with each stored value a
      code 0, 1 or 2 read through the table sgn = {0, 1, -1}. */
  method CCsrTransMatvec(rowptr: array<int>, columns: array<int>, codes: array<int>,
                         ilen: int, p: array<real>, olen: int, ap: array<real>)
    requires 0 <= ilen <= p.Length && 0 <= olen <= ap.Length
    requires forall k :: 0 <= k < codes.Length ==> 0 <= codes[k] < 3
    requires CsrOk(rowptr[..], columns[..], SignValues(codes[..]), ilen, olen)
    requires ap != p
    modifies ap
    ensures ap[..olen] == Scatter(Zeros(olen), rowptr[..], columns[..], SignValues(codes[..]), p[..], ilen)
    ensures ap[olen..] == old(ap[olen..])
  {
    ghost var vals := SignValues(codes[..]);
    ClearOutput(ap, olen);
    var i := 0;
    while i < ilen
      invariant 0 <= i <= ilen && CsrOk(rowptr[..], columns[..], vals, i, olen)
      invariant ap[..olen] == Scatter(Zeros(olen), rowptr[..], columns[..], vals, p[..], i)
      invariant ap[olen..] == old(ap[olen..])
    {
      CsrRowColumns(rowptr[..], columns[..], ilen, olen, i);
      AddSignRowTransposed(columns, codes, p[i], rowptr[i], rowptr[i + 1], olen, ap);
      CsrPrefix(rowptr[..], columns[..], vals, ilen, olen, i + 1);
      i := i + 1;
    }
  }
}
