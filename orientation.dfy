/**
  Bookkeeping of Intrepid2's H(grad) orientation coefficient matrices
  (OrientationTools::getEdgeCoeffMatrix_HGRAD and the face variants).

  For an edge shared by two cells, the coefficient matrix X solves
  Ref X = Ort, where Ref holds the cell basis' edge DOFs evaluated at the
  collocation points of the edge and Ort holds the line basis' DOFs
  evaluated at the same points seen under the edge's orientation. The
  point lattice, the orientation map of the points, the embedding in the
  cell and the basis evaluation are done by other components; here they
  arrive as the two evaluated tables. The dense solve (LAPACK's GESV) is a
  function parameter that reports an error code and a solution.

  Matrices are sequences of rows: m[r][c] is entry (r, c).
*/
module OrientationCoeff {

  type Matrix = seq<seq<real>>

  /** `m` has `rows` rows of `cols` entries each. */
  predicate Shaped(m: Matrix, rows: int, cols: int)
  {
    |m| == rows && forall r :: 0 <= r < rows ==> |m[r]| == cols
  }

  // ---------------------------------------------------------------------
  // DOF tags of a basis

  /** The tag of one basis function: the dimension and id of the subcell it
      belongs to, its local index on that subcell, and how many DOFs that
      subcell carries. */
  datatype DofTag = DofTag(subcellDim: int, subcellId: int, localDof: int, subcellDofs: int)

  /** What the orientation code reads from a basis: the tag of every basis
      function (getDofTag, by ordinal) and the inverse lookup from
      (subcell dimension, subcell id, local index) to ordinal (getDofOrdinal). */
  datatype Basis = Basis(tags: seq<DofTag>, ordinals: map<(int, int, int), int>)

  /** getDofOrdinal is defined for this subcell DOF. */
  predicate HasDof(b: Basis, dim: int, id: int, i: int)
  {
    (dim, id, i) in b.ordinals
  }

  /** getDofOrdinal(dim, id, i). */
  function DofOrdinal(b: Basis, dim: int, id: int, i: int): int
    requires HasDof(b, dim, id, i)
  {
    b.ordinals[(dim, id, i)]
  }

  /** A basis whose two tag lookups agree: every lookup lands on a basis
      function with that tag, every basis function is found by its own
      tag, and a subcell with m DOFs has the local indices 0..m-1, all
      tagged with the same count m. */
  ghost predicate BasisOk(b: Basis)
  {
    && (forall dim, id, i :: HasDof(b, dim, id, i) ==>
          0 <= DofOrdinal(b, dim, id, i) < |b.tags| &&
          var t := b.tags[DofOrdinal(b, dim, id, i)];
          t.subcellDim == dim && t.subcellId == id && t.localDof == i)
    && (forall k :: 0 <= k < |b.tags| ==>
          HasDof(b, b.tags[k].subcellDim, b.tags[k].subcellId, b.tags[k].localDof) &&
          DofOrdinal(b, b.tags[k].subcellDim, b.tags[k].subcellId, b.tags[k].localDof) == k &&
          0 <= b.tags[k].localDof < b.tags[k].subcellDofs)
    && (forall k, i :: 0 <= k < |b.tags| && 0 <= i < b.tags[k].subcellDofs ==>
          HasDof(b, b.tags[k].subcellDim, b.tags[k].subcellId, i) &&
          b.tags[DofOrdinal(b, b.tags[k].subcellDim, b.tags[k].subcellId, i)].subcellDofs ==
            b.tags[k].subcellDofs)
  }

  /** ndofEdge (ndofFace for a face): the DOF count in the tag of the
      subcell's first DOF. Every local index below it has an ordinal. */
  function SubcellDofCount(b: Basis, dim: int, id: int): (n: int)
    requires BasisOk(b) && HasDof(b, dim, id, 0)
    ensures n >= 1
    ensures forall i :: 0 <= i < n ==> HasDof(b, dim, id, i)
  {
    var k := DofOrdinal(b, dim, id, 0);
    assert b.tags[k].subcellDim == dim && b.tags[k].subcellId == id;
    b.tags[k].subcellDofs
  }

  /** The count read from the first DOF's tag is the subcell's DOF count:
      local indices 0..n-1 name n distinct basis functions, each tagged
      with this subcell, its index and n, and every basis function tagged
      with this subcell is one of them. */
  lemma SubcellDofsExactly(b: Basis, dim: int, id: int)
    requires BasisOk(b) && HasDof(b, dim, id, 0)
    ensures var n := SubcellDofCount(b, dim, id);
      (forall i :: 0 <= i < n ==>
         0 <= DofOrdinal(b, dim, id, i) < |b.tags| &&
         b.tags[DofOrdinal(b, dim, id, i)] == DofTag(dim, id, i, n)) &&
      (forall i, j :: 0 <= i < j < n ==> DofOrdinal(b, dim, id, i) != DofOrdinal(b, dim, id, j)) &&
      (forall k :: 0 <= k < |b.tags| && b.tags[k].subcellDim == dim && b.tags[k].subcellId == id ==>
         0 <= b.tags[k].localDof < n && DofOrdinal(b, dim, id, b.tags[k].localDof) == k)
  {
    var n := SubcellDofCount(b, dim, id);
    var k0 := DofOrdinal(b, dim, id, 0);
    assert b.tags[k0].subcellDim == dim && b.tags[k0].subcellId == id && b.tags[k0].subcellDofs == n;
    forall k | 0 <= k < |b.tags| && b.tags[k].subcellDim == dim && b.tags[k].subcellId == id
      ensures 0 <= b.tags[k].localDof < n && DofOrdinal(b, dim, id, b.tags[k].localDof) == k
    {
      assert 0 < b.tags[k].subcellDofs;
      assert HasDof(b, dim, id, 0);
      assert b.tags[DofOrdinal(b, dim, id, 0)].subcellDofs == b.tags[k].subcellDofs;
    }
  }

  // ---------------------------------------------------------------------
  // Collocation matrices

  /** A table of basis values has a row per basis function and a column
      per collocation point. The collocation matrix built from it has
      entry (j, i) equal to the value of the subcell's i-th DOF at point j. */
  function Collocation(values: Matrix, b: Basis, dim: int, id: int, n: int): Matrix
    requires 0 <= n && forall i :: 0 <= i < n ==> HasDof(b, dim, id, i)
    requires forall i :: 0 <= i < n ==> 0 <= DofOrdinal(b, dim, id, i) < |values|
    requires forall k :: 0 <= k < |values| ==> |values[k]| >= n
  {
    seq(n, j requires 0 <= j < n => seq(n, i requires 0 <= i < n => values[DofOrdinal(b, dim, id, i)][j]))
  }

  /** The rows of the table that belong to the subcell's DOFs, in local order,
      cut to the n collocation points. */
  function DofRows(values: Matrix, b: Basis, dim: int, id: int, n: int): (r: Matrix)
    requires 0 <= n && forall i :: 0 <= i < n ==> HasDof(b, dim, id, i)
    requires forall i :: 0 <= i < n ==> 0 <= DofOrdinal(b, dim, id, i) < |values|
    requires forall k :: 0 <= k < |values| ==> |values[k]| >= n
    ensures Shaped(r, n, n)
  {
    seq(n, i requires 0 <= i < n => values[DofOrdinal(b, dim, id, i)][..n])
  }

  function Transpose(m: Matrix, n: int): (r: Matrix)
    requires Shaped(m, n, n)
    ensures Shaped(r, n, n)
    ensures forall a, c :: 0 <= a < n && 0 <= c < n ==> r[a][c] == m[c][a]
  {
    seq(n, a requires 0 <= a < n => seq(n, c requires 0 <= c < n => m[c][a]))
  }

  /** The collocation matrix is the transpose of the subcell's DOF rows:
      it gathers the DOFs' rows through their ordinals and lays them out
      as columns. */
  lemma CollocationIsTransposedGather(values: Matrix, b: Basis, dim: int, id: int, n: int)
    requires 0 <= n && forall i :: 0 <= i < n ==> HasDof(b, dim, id, i)
    requires forall i :: 0 <= i < n ==> 0 <= DofOrdinal(b, dim, id, i) < |values|
    requires forall k :: 0 <= k < |values| ==> |values[k]| >= n
    ensures Shaped(Collocation(values, b, dim, id, n), n, n)
    ensures Collocation(values, b, dim, id, n) == Transpose(DofRows(values, b, dim, id, n), n)
  {
    var c, t := Collocation(values, b, dim, id, n), Transpose(DofRows(values, b, dim, id, n), n);
    forall j | 0 <= j < n ensures c[j] == t[j] {
      assert |c[j]| == |t[j]| == n;
      forall i | 0 <= i < n ensures c[j][i] == t[j][i] {
        assert t[j][i] == DofRows(values, b, dim, id, n)[i][j];
      }
    }
  }

  /** The entries of a two-dimensional array, row by row. */
  function Rows(m: array2<real>): (r: Matrix)
    reads m
    ensures Shaped(r, m.Length0, m.Length1)
    ensures forall a, c :: 0 <= a < m.Length0 && 0 <= c < m.Length1 ==> r[a][c] == m[a, c]
  {
    seq(m.Length0, a requires 0 <= a < m.Length0 reads m =>
      seq(m.Length1, c requires 0 <= c < m.Length1 reads m => m[a, c]))
  }

  /** The double loop of getEdgeCoeffMatrix_HGRAD: refMat(j, i) is the cell
      basis value of the subcell's i-th DOF at point j, and ortMat(j, i)
      the sub-entity basis value of its own i-th DOF (subcell 0 of the
      sub-entity) at oriented point j. */
  method AssembleCollocation(refValues: Matrix, outValues: Matrix, cellBasis: Basis, subBasis: Basis,
                             dim: int, id: int, n: int)
    returns (refMat: array2<real>, ortMat: array2<real>)
    requires 0 <= n
    requires forall i :: 0 <= i < n ==> HasDof(cellBasis, dim, id, i) && HasDof(subBasis, dim, 0, i)
    requires forall i :: 0 <= i < n ==>
      0 <= DofOrdinal(cellBasis, dim, id, i) < |refValues| && 0 <= DofOrdinal(subBasis, dim, 0, i) < |outValues|
    requires forall k :: 0 <= k < |refValues| ==> |refValues[k]| >= n
    requires forall k :: 0 <= k < |outValues| ==> |outValues[k]| >= n
    ensures fresh(refMat) && fresh(ortMat) && refMat != ortMat
    ensures Rows(refMat) == Collocation(refValues, cellBasis, dim, id, n)
    ensures Rows(ortMat) == Collocation(outValues, subBasis, dim, 0, n)
  {
    refMat := new real[n, n];
    ortMat := new real[n, n];
    var i := 0;
    while i < n
      invariant 0 <= i <= n
      invariant forall j, c :: 0 <= j < n && 0 <= c < i ==>
        refMat[j, c] == refValues[DofOrdinal(cellBasis, dim, id, c)][j] &&
        ortMat[j, c] == outValues[DofOrdinal(subBasis, dim, 0, c)][j]
    {
      var iref := DofOrdinal(cellBasis, dim, id, i);
      var iout := DofOrdinal(subBasis, dim, 0, i);
      var j := 0;
      while j < n
        invariant 0 <= j <= n
        invariant forall r, c :: 0 <= r < n && 0 <= c < i ==>
          refMat[r, c] == refValues[DofOrdinal(cellBasis, dim, id, c)][r] &&
          ortMat[r, c] == outValues[DofOrdinal(subBasis, dim, 0, c)][r]
        invariant forall r :: 0 <= r < j ==> refMat[r, i] == refValues[iref][r] && ortMat[r, i] == outValues[iout][r]
      {
        refMat[j, i] := refValues[iref][j];
        ortMat[j, i] := outValues[iout][j];
        j := j + 1;
      }
      i := i + 1;
    }
    SameMatrix(Rows(refMat), Collocation(refValues, cellBasis, dim, id, n), n);
    SameMatrix(Rows(ortMat), Collocation(outValues, subBasis, dim, 0, n), n);
  }

  /** Two n x n matrices with the same entries are equal. */
  lemma SameMatrix(a: Matrix, b: Matrix, n: int)
    requires Shaped(a, n, n) && Shaped(b, n, n)
    requires forall r, c :: 0 <= r < n && 0 <= c < n ==> a[r][c] == b[r][c]
    ensures a == b
  {
    forall r | 0 <= r < n ensures a[r] == b[r] {
      assert forall c :: 0 <= c < n ==> a[r][c] == b[r][c];
    }
  }

  // ---------------------------------------------------------------------
  // Solve and result placement

  /** What the dense solver reports: LAPACK's info code and, when it is 0,
      the solution X of Ref X = Ort. */
  datatype Solve = Solve(info: int, x: Matrix)

  /** A successful solve of an n x n system has an n x n solution. */
  ghost predicate SolverSquare(gesv: (Matrix, Matrix) -> Solve)
  {
    forall a: Matrix, b: Matrix :: gesv(a, b).info == 0 ==> Shaped(gesv(a, b).x, |b|, |b|)
  }

  datatype CoeffError =
    | DofCountMismatch(ndof: int, latticeSize: int)  // std::logic_error, debug builds only
    | SolverFailure(info: int)                       // std::runtime_error

  datatype Outcome = Done | Failed(error: CoeffError)

  /** The copy of the solution into output's leading n x n block; every
      other entry of output keeps its value. */
  method CopyLeadingBlock(output: array2<real>, x: Matrix, n: int)
    requires 0 <= n <= output.Length0 && n <= output.Length1 && Shaped(x, n, n)
    modifies output
    ensures forall r, c :: 0 <= r < output.Length0 && 0 <= c < output.Length1 ==>
      output[r, c] == if r < n && c < n then x[r][c] else old(output[r, c])
  {
    var r := 0;
    while r < n
      invariant 0 <= r <= n
      invariant forall a, c :: 0 <= a < output.Length0 && 0 <= c < output.Length1 ==>
        output[a, c] == if a < r && c < n then x[a][c] else old(output[a, c])
    {
      var c := 0;
      while c < n
        invariant 0 <= c <= n
        invariant forall a, d :: 0 <= a < output.Length0 && 0 <= d < output.Length1 ==>
          output[a, d] == if (a < r && d < n) || (a == r && d < c) then x[a][d] else old(output[a, d])
      {
        output[r, c] := x[r][c];
        c := c + 1;
      }
      r := r + 1;
    }
  }

  /** getEdgeCoeffMatrix_HGRAD. `refValues` is the cell basis evaluated at
      the edge's collocation points embedded in the cell, `outValues` the
      line basis evaluated at the same points under the edge orientation.
      The DOF count comes from the cell basis' tag for the edge; a debug
      build rejects a count that differs from the lattice size; a nonzero
      solver code is an error; neither error writes to `output`. On
      success the solution fills output's leading ndofEdge x ndofEdge
      block and nothing else. */
  method GetEdgeCoeffMatrix(output: array2<real>, lineBasis: Basis, cellBasis: Basis,
                            lineDim: int, edgeId: int, debug: bool, latticeSize: int,
                            refValues: Matrix, outValues: Matrix, gesv: (Matrix, Matrix) -> Solve)
    returns (outcome: Outcome)
    requires BasisOk(cellBasis) && BasisOk(lineBasis) && HasDof(cellBasis, lineDim, edgeId, 0)
    requires var n := SubcellDofCount(cellBasis, lineDim, edgeId);
      (forall i :: 0 <= i < n ==> HasDof(lineBasis, lineDim, 0, i)) &&
      Shaped(refValues, |cellBasis.tags|, n) && Shaped(outValues, |lineBasis.tags|, n) &&
      n <= output.Length0 && n <= output.Length1
    requires SolverSquare(gesv)
    modifies output
    ensures var n := SubcellDofCount(cellBasis, lineDim, edgeId);
      debug && n != latticeSize ==> outcome == Failed(DofCountMismatch(n, latticeSize))
    ensures var n := SubcellDofCount(cellBasis, lineDim, edgeId);
      var sol := gesv(Collocation(refValues, cellBasis, lineDim, edgeId, n),
                      Collocation(outValues, lineBasis, lineDim, 0, n));
      !(debug && n != latticeSize) ==>
        outcome == (if sol.info == 0 then Done else Failed(SolverFailure(sol.info)))
    ensures outcome.Failed? ==> forall r, c :: 0 <= r < output.Length0 && 0 <= c < output.Length1 ==>
      output[r, c] == old(output[r, c])
    ensures var n := SubcellDofCount(cellBasis, lineDim, edgeId);
      var sol := gesv(Collocation(refValues, cellBasis, lineDim, edgeId, n),
                      Collocation(outValues, lineBasis, lineDim, 0, n));
      outcome == Done ==>
        Shaped(sol.x, n, n) &&
        (forall r, c :: 0 <= r < output.Length0 && 0 <= c < output.Length1 ==>
           output[r, c] == if r < n && c < n then sol.x[r][c] else old(output[r, c]))
  {
    var ndofEdge := SubcellDofCount(cellBasis, lineDim, edgeId);
    if debug && ndofEdge != latticeSize {
      return Failed(DofCountMismatch(ndofEdge, latticeSize));
    }
    SubcellDofsExactly(cellBasis, lineDim, edgeId);
    var refMat, ortMat := AssembleCollocation(refValues, outValues, cellBasis, lineBasis,
                                              lineDim, edgeId, ndofEdge);
    var sol := gesv(Rows(refMat), Rows(ortMat));
    if sol.info != 0 {
      return Failed(SolverFailure(sol.info));
    }
    CopyLeadingBlock(output, sol.x, ndofEdge);
    return Done;
  }

  // ---------------------------------------------------------------------
  // Face handedness (the triangle and quadrilateral variants)

  /** The node map of a cell topology: faceNodes[f][k] is the cell node
      that is node k of face f (getNodeMap(2, f, k)). */
  datatype CellTopology = CellTopology(faceNodes: seq<seq<int>>)

  /** Face f has at least m nodes in the node map. */
  predicate FaceOk(topo: CellTopology, faceId: int, m: int)
  {
    0 <= faceId < |topo.faceNodes| && |topo.faceNodes[faceId]| >= m
  }

  /** Re-enumeration of the 6 triangle orientations for a left-handed face. */
  const TriLeftOrt: seq<int> := [0, 2, 1, 3, 5, 4]

  /** Re-enumeration of the 8 quadrilateral orientations for a left-handed face. */
  const QuadLeftOrt: seq<int> := [0, 3, 2, 1, 4, 7, 6, 5]

  /** A triangular face is left-handed when its node 1 is a later cell node
      than its node 2. */
  predicate TriLeftHanded(topo: CellTopology, faceId: int)
    requires FaceOk(topo, faceId, 3)
  {
    topo.faceNodes[faceId][1] > topo.faceNodes[faceId][2]
  }

  /** A quadrilateral face is left-handed when its node 1 is a later cell
      node than its node 3. */
  predicate QuadLeftHanded(topo: CellTopology, faceId: int)
    requires FaceOk(topo, faceId, 4)
  {
    topo.faceNodes[faceId][1] > topo.faceNodes[faceId][3]
  }

  /** The orientation getTriangleCoeffMatrix_HGRAD works with: the given
      one, re-enumerated through TriLeftOrt on a left-handed face. */
  function TriangleOrt(topo: CellTopology, faceId: int, faceOrt: int): (ort: int)
    requires FaceOk(topo, faceId, 3) && 0 <= faceOrt < 6
    ensures 0 <= ort < 6
    ensures !TriLeftHanded(topo, faceId) ==> ort == faceOrt
  {
    if TriLeftHanded(topo, faceId) then TriLeftOrt[faceOrt] else faceOrt
  }

  /** The orientation getQuadrilateralCoeffMatrix_HGRAD works with: the
      given one, re-enumerated through QuadLeftOrt on a left-handed face. */
  function QuadOrt(topo: CellTopology, faceId: int, faceOrt: int): (ort: int)
    requires FaceOk(topo, faceId, 4) && 0 <= faceOrt < 8
    ensures 0 <= ort < 8
    ensures !QuadLeftHanded(topo, faceId) ==> ort == faceOrt
  {
    if QuadLeftHanded(topo, faceId) then QuadLeftOrt[faceOrt] else faceOrt
  }

  /** TriLeftOrt is a permutation of 0..5 that is its own inverse. */
  lemma TriLeftOrtInvolution()
    ensures |TriLeftOrt| == 6
    ensures forall o :: 0 <= o < 6 ==> 0 <= TriLeftOrt[o] < 6 && TriLeftOrt[TriLeftOrt[o]] == o
    ensures forall a, b :: 0 <= a < 6 && 0 <= b < 6 && TriLeftOrt[a] == TriLeftOrt[b] ==> a == b
  {
    forall o | 0 <= o < 6 ensures 0 <= TriLeftOrt[o] < 6 && TriLeftOrt[TriLeftOrt[o]] == o {
      if o == 0 {} else if o == 1 {} else if o == 2 {} else if o == 3 {} else if o == 4 {} else {}
    }
  }

  /** QuadLeftOrt is a permutation of 0..7 that is its own inverse. */
  lemma QuadLeftOrtInvolution()
    ensures |QuadLeftOrt| == 8
    ensures forall o :: 0 <= o < 8 ==> 0 <= QuadLeftOrt[o] < 8 && QuadLeftOrt[QuadLeftOrt[o]] == o
    ensures forall a, b :: 0 <= a < 8 && 0 <= b < 8 && QuadLeftOrt[a] == QuadLeftOrt[b] ==> a == b
  {
    forall o | 0 <= o < 8 ensures 0 <= QuadLeftOrt[o] < 8 && QuadLeftOrt[QuadLeftOrt[o]] == o {
      if o == 0 {} else if o == 1 {} else if o == 2 {} else if o == 3 {}
      else if o == 4 {} else if o == 5 {} else if o == 6 {} else {}
    }
  }

  /** The handedness of a face does not depend on the orientation, so
      re-enumerating twice gives the orientation back, and distinct
      orientations stay distinct. */
  lemma TriangleOrtInvolution(topo: CellTopology, faceId: int, o1: int, o2: int)
    requires FaceOk(topo, faceId, 3) && 0 <= o1 < 6 && 0 <= o2 < 6
    ensures TriangleOrt(topo, faceId, TriangleOrt(topo, faceId, o1)) == o1
    ensures o1 != o2 ==> TriangleOrt(topo, faceId, o1) != TriangleOrt(topo, faceId, o2)
  {
    TriLeftOrtInvolution();
  }

  /** As TriangleOrtInvolution, for quadrilateral faces. */
  lemma QuadOrtInvolution(topo: CellTopology, faceId: int, o1: int, o2: int)
    requires FaceOk(topo, faceId, 4) && 0 <= o1 < 8 && 0 <= o2 < 8
    ensures QuadOrt(topo, faceId, QuadOrt(topo, faceId, o1)) == o1
    ensures o1 != o2 ==> QuadOrt(topo, faceId, o1) != QuadOrt(topo, faceId, o2)
  {
    QuadLeftOrtInvolution();
  }
}
