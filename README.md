# Sparse-matrix kernels of ML and orientation bookkeeping of Intrepid2, in Dafny

This project models two pieces of Trilinos.

**ML matrix formats** (`packages/ml/src/Operator/ml_mat_formats.c`). These are the
kernels that read and rewrite the layouts ML stores matrices in:

- CSR (compressed sparse row): `rowptr`, `columns`, `values`.
- MSR (modified sparse row): one `bindx` array holds the row pointers and then the
  off-diagonal columns; the diagonal sits apart in `val[0..Nrows)`.
- The "cheap" cCSR variant: values are sign codes 0, 1, 2 read through `sgn = {0, 1, -1}`.
- Constant-block VBR (variable block row with every block `step x step`).
- A plain vector seen as a one-column matrix.

The getrow kernels copy one or more rows into caller buffers and return 0 when
`allocated_space` is too small. The matvec kernels compute `A p` (CSR, MSR with its
ten-way unrolled loop, all-ones CSR) and `A^T p` (sCSR, cCSR). `ML_MSR2CSR` compacts an
MSR matrix into CSR inside its own arrays. `ML_Scale_CSR` scales stored rows. The
kernels are imperative methods over Dafny arrays. Each is proved against a value-level
specification: `MatFormatsSpec` for rows and conversion, `MatvecSpec` for products.
Lemmas state what the source promises about those specifications.

**Edge orientation coefficient matrix**
(`packages/intrepid2/refactor/src/Orientation/Intrepid2_OrientationToolsDefCoeffMatrix.hpp`).
`getEdgeCoeffMatrix_HGRAD` does the following:

1. Reads the edge DOF count `ndofEdge` from the cell basis' DOF tags.
2. Assembles two collocation matrices by gathering basis-value rows through DOF ordinals.
3. Solves `Ref X = Ort`.
4. Writes `X` into the leading `ndofEdge x ndofEdge` block of `output`.

The triangle and quadrilateral variants re-enumerate the face orientation through fixed
tables when the face is left-handed. The module `OrientationCoeff` models the DOF-tag
lookups, the assembly, the error gate, the block copy and the face tables. The evaluated
basis tables and the dense solver are inputs.

Matrix values are `real`: every product and sum is exact.

## Model

| member | source | states |
|---|---|---|
| `MatFormats.CsrGetrows` | packages/ml/src/Operator/ml_mat_formats.c:258-320 | row length is `rowptr[row+1]-rowptr[row]`; status 0 exactly when it exceeds `allocated_space`, and then `columns`/`values` are untouched; otherwise status 1 and the first `len` slots hold the stored columns/values of the row in order, the rest untouched (CSR_getrows and CSR_getrow) |
| `MatFormats.MsrGetrows` | packages/ml/src/Operator/ml_mat_formats.c:182-220 | row length is `bindx[row+1]-bindx[row]+1`; status 0 exactly when it exceeds `allocated_space`, writing nothing; on success the diagonal `(row, val[row])` comes first, then the off-diagonals `bindx[start..finish)` with their values, in stored order |
| `MatFormats.MsrGetOnesRows` | packages/ml/src/Operator/ml_mat_formats.c:222-256 | same length, status and column pattern as MSR_getrows; every emitted value is 1 |
| `MatFormats.CCsrGetrows` | packages/ml/src/Operator/ml_mat_formats.c:359-393 | CSR row length and capacity check; on success the columns are the stored ones and each value is `sgn[code]` with `sgn = {0, 1, -1}` |
| `MatFormats.VectorGetrows` | packages/ml/src/Operator/ml_mat_formats.c:427-445 | fails, writing nothing, iff `allocated_space < N_requested_rows`; on success every requested row has length 1, column 0 and value `temp[requested_rows[i]]`, and every slot from `N_requested_rows` on is unchanged |
| `MatFormats.VbrCnstBlkGetrows` | packages/ml/src/Operator/ml_mat_formats.c:475-521 | succeeds iff the total length of the requested rows fits; each row's length is `step*(bpntr[b+1]-bpntr[b])`; rows are written one after the other, block by block, and nothing past them changes; on failure it stops at the first row `k` that does not fit: the earlier rows are written, row `k`'s length is reported, and no entry of row `k` or later and no length past `k` is written |
| `MatFormats.GetRequestedRows` | packages/ml/src/Operator/ml_mat_formats.c:499-520 | the row loop: from the first row on, each row is handed out behind the previous ones until one does not fit, ending in the outcome stated for VBR_cnst_blk_getrows |
| `MatFormats.GetRequestedRow` | packages/ml/src/Operator/ml_mat_formats.c:501-518 | one pass for `requested_rows[k]`: `row_lengths[k]` becomes `step*(bpntr[b+1]-bpntr[b])` and no other length changes; the row fits iff the running count plus that length is within `allocated_space`; if it fits, its entries follow the earlier rows and nothing past them changes; if not, `columns`/`values` are unchanged and the kernel's failure outcome holds |
| `MatFormats.WriteRequestedRow` | packages/ml/src/Operator/ml_mat_formats.c:508-518 | with the rows before `k` handed out at the front, the block loop hands out row `k` right behind them and leaves every slot after it unchanged |
| `MatFormats.WriteRow` | packages/ml/src/Operator/ml_mat_formats.c:508-518 | the block loop appends, at `count`, the columns and values of every block of the row and leaves the rest of the buffers alone |
| `MatFormats.AppendBlock` | packages/ml/src/Operator/ml_mat_formats.c:509-517 | one pass of the block loop: with the blocks before slot `i` written after `count`, block `i` is written right behind them and the rest of the buffers is unchanged |
| `MatFormats.WriteBlock` | packages/ml/src/Operator/ml_mat_formats.c:509-517 | one block contributes `step` consecutive columns from `cpntr[bindx[i]]` and the values from `indx[i]+row_offset` with stride `N_rows` |
| `MatFormats.WriteStride` | packages/ml/src/Operator/ml_mat_formats.c:513-517 | the innermost loop writes columns `c0+j` and values read with stride `N_rows`, advancing `count` by `N_cols` and touching nothing else |
| `MatFormats.CopySlots` | packages/ml/src/Operator/ml_mat_formats.c:278-285 | the pointer-advancing copy loops place the stored slots at the front of the caller buffer and leave every other slot unchanged |
| `MatFormatsSpec.ReqLenMonotone` | packages/ml/src/Operator/ml_mat_formats.c:500-506 | the running count of emitted entries never decreases, so the first row that overflows decides the failure |
| `MatFormatsSpec.RowsWrittenNext` | packages/ml/src/Operator/ml_mat_formats.c:505-518 | writing the next row after the rows already emitted extends the emitted prefix by exactly that row |
| `MatFormatsSpec.MsrRowMatchesConversion` | packages/ml/src/Operator/ml_mat_formats.c:207-219 | the row MSR_getrows hands out, with zero values dropped, is exactly the row ML_MSR2CSR builds for it (diagonal first, then off-diagonals) |
| `Matvec.LocalCsrMatvec` | packages/ml/src/Operator/ml_mat_formats.c:1137-1166 | `ap[i]` is the sum of `val[k]*p[bindx[k]]` over row i's slots, for every stored row; the rest of `ap` is untouched |
| `Matvec.AccumulateTens` | packages/ml/src/Operator/ml_mat_formats.c:565-578 | the ten-way unrolled loop adds exactly the slots it passes, in groups of ten, and stops with at most ten slots left |
| `Matvec.AccumulateRow` | packages/ml/src/Operator/ml_mat_formats.c:564-582 | unrolled loop plus remainder loop add every off-diagonal slot of the row to the diagonal term |
| `Matvec.MsrMatvec` | packages/ml/src/Operator/ml_mat_formats.c:527-591 | fails iff `ilen` matches neither `olen` nor `Nrows` (the source exits), writing nothing; otherwise `ap[i] = val[i]*p[i] + sum over k in [bindx[i], bindx[i+1]) of val[k]*p[bindx[k]]` |
| `MatFormatsSpec.DotStep10` | packages/ml/src/Operator/ml_mat_formats.c:566-575 | the ten unrolled terms, added in the source's order, equal ten steps of the plain row sum |
| `MatvecSpec.MsrProductIsCsrProduct` | packages/ml/src/Operator/ml_mat_formats.c:561-583 | every row of MSR_matvec's product equals the same row of the plain CSR product of the converted matrix, the loop of localCSR_matvec |
| `Matvec.CsrOnesMatvec` | packages/ml/src/Operator/ml_mat_formats.c:1107-1115 | `ap[i]` is the sum of `p[bindx[k]]` over row i's slots; stored values are never read |
| `MatvecSpec.OnesProductIsProduct` | packages/ml/src/Operator/ml_mat_formats.c:1107-1115 | CSR_ones_matvec computes the ordinary product of the matrix whose stored values are all 1 |
| `MatvecSpec.OnesDotIsDot` | packages/ml/src/Operator/ml_mat_formats.c:1109-1112 | summing `p` over a row's columns equals the weighted row sum when every weight is 1 |
| `Matvec.ClearOutput` | packages/ml/src/Operator/ml_mat_formats.c:719-722 | the transposed products first set `ap[0..olen)` to zero, leaving the rest alone |
| `Matvec.AddRowTransposed` | packages/ml/src/Operator/ml_mat_formats.c:725-728 | one row adds `val[k]*p[i]` into `ap[bindx[k]]` for each of its slots, in order |
| `Matvec.SCsrTransMatvec` | packages/ml/src/Operator/ml_mat_formats.c:675-747 | on the communication-free path `ap[0..olen)` is the zero vector with every row scattered in, i.e. `A^T p`; the rest of `ap` is untouched |
| `Matvec.AddSignRowTransposed` | packages/ml/src/Operator/ml_mat_formats.c:800-803 | as AddRowTransposed, with each weight `sgn[code]` |
| `Matvec.CCsrTransMatvec` | packages/ml/src/Operator/ml_mat_formats.c:749-822 | as sCSR_trans_matvec, with values given by sign codes through `sgn = {0, 1, -1}` |
| `MatvecSpec.ScatterRowPairing` | packages/ml/src/Operator/ml_mat_formats.c:725-728 | scattering one row weighted by `x` raises `q . ap` by `x` times that row's product with `q` |
| `MatvecSpec.ScatterPairing` | packages/ml/src/Operator/ml_mat_formats.c:724-729 | scattering rows 0..n weighted by `p` raises `q . ap` by `p . (A q)` |
| `MatvecSpec.TransposeDuality` | packages/ml/src/Operator/ml_mat_formats.c:719-729 | the transposed product is the transpose: for every `q`, `q . (A^T p) == p . (A q)` |
| `Convert.MsrToCsr` | packages/ml/src/Operator/ml_mat_formats.c:1309-1348 | the new `rowptr` is the CSR pointer array of the kept entries; the front of `bindx`/`val` holds the kept entries row by row and the rest is unchanged; `Ncolumns` is one more than the largest kept column |
| `Convert.CopyAside` | packages/ml/src/Operator/ml_mat_formats.c:1314-1321 | the row pointers `bindx[0..Nrows]` and diagonals `val[0..Nrows)` are copied into fresh arrays before anything is overwritten |
| `Convert.CompactRows` | packages/ml/src/Operator/ml_mat_formats.c:1322-1343 | the row loop leaves `rowptr` equal to the running kept counts and the kept entries compacted at the front |
| `Convert.CompactRow` | packages/ml/src/Operator/ml_mat_formats.c:1326-1343 | one row appends its nonzero diagonal, then its nonzero off-diagonals, and the write cursor stays behind the next row's first slot |
| `Convert.KeepDiagonal` | packages/ml/src/Operator/ml_mat_formats.c:1329-1333 | a nonzero diagonal is written at the cursor as entry `(i, diag[i])`, raising the running maximum column to `i` if larger |
| `Convert.CompactOffDiagonals` | packages/ml/src/Operator/ml_mat_formats.c:1334-1340 | nonzero off-diagonals of `[lower, upper)` are appended at `nz_ptr`, which never passes the slot being read, so no unread entry is overwritten |
| `MatFormatsSpec.CsrRowPtrMonotone` | packages/ml/src/Operator/ml_mat_formats.c:1322-1343 | the converted `rowptr` starts at 0, is nondecreasing and ends at the number of kept entries |
| `MatFormatsSpec.KeptCountsPrefix` | packages/ml/src/Operator/ml_mat_formats.c:1341 | the pointers written row by row are the prefix of the converted `rowptr` |
| `MatFormatsSpec.CsrRowIsRowKept` | packages/ml/src/Operator/ml_mat_formats.c:1326-1343 | row i of the result occupies `[rowptr[i], rowptr[i+1])` and holds its nonzero diagonal first, then its nonzero off-diagonals in stored order |
| `MatFormatsSpec.KeptNonzero` | packages/ml/src/Operator/ml_mat_formats.c:1329-1339 | the conversion keeps only nonzero entries |
| `MatFormatsSpec.MaxColBound` | packages/ml/src/Operator/ml_mat_formats.c:1325-1346 | `Ncolumns` is 0 iff nothing is kept; otherwise every kept column is below it and some kept column equals `Ncolumns-1` |
| `MatFormatsSpec.CsrOfMsrRowProduct` | packages/ml/src/Operator/ml_mat_formats.c:1326-1343 | row i of the converted CSR matrix multiplies `p` exactly as the MSR row did: `val[i]*p[i]` plus the stored off-diagonal terms |
| `MatFormatsSpec.OffKeptDot` | packages/ml/src/Operator/ml_mat_formats.c:1334-1340 | dropping zero off-diagonals leaves a row's product unchanged |
| `Convert.ScaleCsr` | packages/ml/src/Operator/ml_mat_formats.c:111-149 | the stored values become those of scaling rows 0..Nrows-1 in turn: each row's `actual_row` (itself, or its row-map entry; -1 skipped) is multiplied by `scale_factors[row]`, or by its reciprocal when `mult_or_divide` is 0 |
| `Convert.ScaleSpan` | packages/ml/src/Operator/ml_mat_formats.c:145-146 | the in-place loop `values[i] *= dtemp` multiplies exactly the slots `[rowptr[r], rowptr[r+1])` by the factor; every other value is unchanged |
| `Convert.ScaledRowsEntries` | packages/ml/src/Operator/ml_mat_formats.c:120-147 | without a row map, on nondecreasing pointers, every value of row i is multiplied by row i's factor exactly once and values outside all rows are unchanged |
| `Convert.ScaledRowsMapEntries` | packages/ml/src/Operator/ml_mat_formats.c:120-147 | with a row map naming each stored row at most once, on nondecreasing pointers, every value of the stored row that requested row i maps to is multiplied by row i's factor exactly once, and slots of no mapped row (rows mapped to -1 included) are unchanged |
| `Convert.ScaleThenDivide` | packages/ml/src/Operator/ml_mat_formats.c:122-124 | scaling with `mult_or_divide` = 1 and then with 0 by the same nonzero factors restores the values |
| `OrientationCoeff.SubcellDofCount` | packages/intrepid2/refactor/src/Orientation/Intrepid2_OrientationToolsDefCoeffMatrix.hpp:90-91 | `ndofEdge`, read from the tag of the edge's first DOF, is at least 1, and every local index below it has a DOF ordinal |
| `OrientationCoeff.SubcellDofsExactly` | packages/intrepid2/refactor/src/Orientation/Intrepid2_OrientationToolsDefCoeffMatrix.hpp:90-91 | the local indices `0..ndofEdge-1` name `ndofEdge` distinct basis functions tagged with the edge, and every basis function tagged with the edge is one of them |
| `OrientationCoeff.AssembleCollocation` | packages/intrepid2/refactor/src/Orientation/Intrepid2_OrientationToolsDefCoeffMatrix.hpp:132-145 | `refMat(j,i) = refValues(cellBasis.getDofOrdinal(lineDim,edgeId,i), j)` and `ortMat(j,i) = outValues(lineBasis.getDofOrdinal(lineDim,0,i), j)` for all `i, j < ndofEdge`, in fresh matrices |
| `OrientationCoeff.CollocationIsTransposedGather` | packages/intrepid2/refactor/src/Orientation/Intrepid2_OrientationToolsDefCoeffMatrix.hpp:137-145 | each collocation matrix is the transpose of the edge DOFs' value rows, gathered through their ordinals |
| `OrientationCoeff.CopyLeadingBlock` | packages/intrepid2/refactor/src/Orientation/Intrepid2_OrientationToolsDefCoeffMatrix.hpp:169-173 | `output[0..n)x[0..n)` receives the solution; every other entry of `output` is unchanged |
| `OrientationCoeff.GetEdgeCoeffMatrix` | packages/intrepid2/refactor/src/Orientation/Intrepid2_OrientationToolsDefCoeffMatrix.hpp:66-174 | debug build with `ndofEdge` differing from the lattice size: logic error; otherwise runtime error iff the solver's `info` is nonzero; on either error `output` is untouched; on success exactly the leading `ndofEdge x ndofEdge` block holds the solver's `X` for the two collocation matrices |
| `OrientationCoeff.TriangleOrt` | packages/intrepid2/refactor/src/Orientation/Intrepid2_OrientationToolsDefCoeffMatrix.hpp:193-196 | the orientation used stays in 0..5 and equals `faceOrt` when the face is not left-handed (node 1 not after node 2) |
| `OrientationCoeff.QuadOrt` | packages/intrepid2/refactor/src/Orientation/Intrepid2_OrientationToolsDefCoeffMatrix.hpp:300-303 | the orientation used stays in 0..7 and equals `faceOrt` when the face is not left-handed (node 1 not after node 3) |
| `OrientationCoeff.TriLeftOrtInvolution` | packages/intrepid2/refactor/src/Orientation/Intrepid2_OrientationToolsDefCoeffMatrix.hpp:195 | `leftOrt = {0,2,1,3,5,4}` maps 0..5 into 0..5, is injective and is its own inverse |
| `OrientationCoeff.QuadLeftOrtInvolution` | packages/intrepid2/refactor/src/Orientation/Intrepid2_OrientationToolsDefCoeffMatrix.hpp:302 | `leftOrt = {0,3,2,1,4,7,6,5}` maps 0..7 into 0..7, is injective and is its own inverse |
| `OrientationCoeff.TriangleOrtInvolution` | packages/intrepid2/refactor/src/Orientation/Intrepid2_OrientationToolsDefCoeffMatrix.hpp:194-196 | for a fixed topology and face, the handedness flag does not depend on the orientation, so the remap applied twice gives the orientation back and distinct orientations stay distinct |
| `OrientationCoeff.QuadOrtInvolution` | packages/intrepid2/refactor/src/Orientation/Intrepid2_OrientationToolsDefCoeffMatrix.hpp:301-303 | the same for quadrilateral faces |

## Left out

- Floating point: values are exact reals, so IEEE rounding, the order-dependence of the unrolled sums, and infinities or NaNs are not modelled. The equality of MSR_matvec with the plain loop holds over exact arithmetic only.
- Convert.ScaleCsr: requires a nonzero scale factor for every row that is divided and not skipped. The source computes `1./0.` and so writes infinities into that row. For a skipped row (row map entry -1) the source also computes `1./0.` but never uses it; the model takes the reciprocal only for rows that are not skipped, which has the same effect on `values`.
- Convert.ScaleCsr: only a matrix without sub-matrices is modelled (`sub_matrix == NULL`). The walk down the `sub_matrix` chain and the row offset it subtracts are left out.
- Communication: `ML_exchange_bdry` and every `pre_comm`/`post_comm`/`remap` branch of the matvecs. Only the paths where these are `NULL` are modelled.
- Memory management and foreign types: `ML_allocate`/`ML_free`, the `*_Destroy` functions, the `ML_Matrix_DCSR_*` functions and the `#ifdef WKC` Epetra block.
- `sCSR_getrows`, `sCSR_matvec`, and the `float` storage of `sCSR_trans_matvec`. Reinterpreting `values` as `float` is a representation trick. `Matvec.SCsrTransMatvec` reads the values as reals.
- `CSR_matvec`, `cCSR_matvec`, `CSR_densematvec` and `ML_restricted_MSR_mult` are not part of this model.
- The getrow kernels for CSR, MSR and cCSR read only `requested_rows[0]` and ignore `N_requested_rows`, as the source does. The model takes the requested-row array and reads its first entry.
- Matvec.MsrMatvec: the source prints a message and calls `exit(1)` on mismatched lengths. The model returns `false` and writes nothing.
- The C struct `ML_CSR_MSRdata` and the `ML_Operator` wrapper. The kernels take the arrays they read directly. Aliasing between the caller's buffers and the matrix arrays is excluded by `requires`.
- MatFormats.VbrCnstBlkGetrows: requires every block of a requested row to be `step x step` (constant-block storage). With other block sizes the capacity check, which uses `step`, no longer bounds what the kernel writes.
- Basis evaluation, lattice generation and point maps: `PointTools::getLattice`, `mapToModifiedReference` (the only use of `edgeOrt`), `mapToReferenceSubcell` and `getValues`. The evaluated tables `refValues` and `outValues` are inputs of `OrientationCoeff.GetEdgeCoeffMatrix`, and `edgeOrt` does not appear.
- LAPACK `GESV` is a function parameter returning `(info, X)`. Its numerics are not modelled: `Ref X = Ort`, the identity matrix for orientation 0, and involution for orientation 1.
- OrientationCoeff.GetEdgeCoeffMatrix: requires the line basis to have an ordinal for local DOFs `0..ndofEdge-1` of its interior. The source does not check this; it relies on the two bases having matching degree.
- Kokkos execution spaces, `deep_copy` and the column-major (`LayoutLeft`) storage of the collocation matrices. Matrices here are indexed by (row, column) and their memory layout is not modelled.
- The triangle and quadrilateral coefficient-matrix functions are commented out in the source. Only their handedness test and `leftOrt` tables are modelled (`TriangleOrt`, `QuadOrt`). Their sizing, assembly and solve repeat the edge path. An orientation outside 0..5 (0..7) is excluded by `requires`, because the table lookup would read out of bounds.
- The DOF-count check runs only in debug builds (`HAVE_INTREPID2_DEBUG`); in other builds a mismatch goes unnoticed. The model follows the code: the `debug` parameter of `OrientationCoeff.GetEdgeCoeffMatrix` switches the check on.
- Unit tests and glue in the same repository (the HGRAD_QUAD_Cn_FEM test, Zoltan2's `UserInputForTests`, Teko's `LU2x2InverseOp`, SEACAS's `vector3d`) are not part of this model.
