/** Dimensions and DOF classification of the Hu-Zhang symmetric-tensor
    space: the tensor dimension, the local and global DOF counts, and the
    split of the scalar Lagrange space's local DOFs into point,
    edge-interior, face-interior (3D) and remaining DOFs.

    The scalar Lagrange space is not part of this model: its local DOF
    count and its per-entity location masks are taken as inputs. */
module HuZhangLayout {
  import opened Masks

  /** The space is built for triangles and tetrahedra only; any other
      dimension leaves the canonical index list unset and construction
      fails before a DOF map exists. */
  predicate SupportedDimension(dim: nat) {
    dim == 2 || dim == 3
  }

  /** Number of independent components of a symmetric `dim x dim` tensor. */
  function TensorDimension(dim: nat): (r: nat)
    ensures dim == 2 ==> r == 3
    ensures dim == 3 ==> r == 6
  {
    dim * (dim - 1) / 2 + dim
  }

  /** Row `j` of the canonical upper-triangular index list:
      `(j, j), (j, j + 1), ..., (j, dim - 1)`, followed by the later rows. */
  function PairsFrom(j: nat, dim: nat): seq<(nat, nat)>
    decreases dim - j
  {
    if j >= dim then [] else seq(dim - j, t => (j, j + t)) + PairsFrom(j + 1, dim)
  }

  /** The canonical list of symmetric-tensor index pairs `(j, k)`, `j <= k`,
      in row-major order; one entry per tensor component. */
  function SymmetricIndexPairs(dim: nat): seq<(nat, nat)> {
    PairsFrom(0, dim)
  }

  /** Strict lexicographic order on index pairs. */
  predicate PairBefore(a: (nat, nat), b: (nat, nat)) {
    a.0 < b.0 || (a.0 == b.0 && a.1 < b.1)
  }

  lemma {:induction false} PairsFromShape(j: nat, dim: nat)
    requires j <= dim
    ensures 2 * |PairsFrom(j, dim)| == (dim - j) * (dim - j + 1)
    ensures forall a :: 0 <= a < |PairsFrom(j, dim)| ==>
              j <= PairsFrom(j, dim)[a].0 <= PairsFrom(j, dim)[a].1 < dim
    ensures forall a, b :: 0 <= a < b < |PairsFrom(j, dim)| ==>
              PairBefore(PairsFrom(j, dim)[a], PairsFrom(j, dim)[b])
    ensures forall x: nat, y: nat :: j <= x <= y < dim ==> (x, y) in PairsFrom(j, dim)
    decreases dim - j
  {
    if j < dim {
      PairsFromShape(j + 1, dim);
      var row := seq(dim - j, t => (j, j + t));
      var rest := PairsFrom(j + 1, dim);
      assert PairsFrom(j, dim) == row + rest;
      var n := dim - j;
      calc {
        2 * |PairsFrom(j, dim)|;
        2 * n + 2 * |rest|;
        2 * n + (n - 1) * n;
        n * (n + 1);
      }
      forall x: nat, y: nat | j <= x <= y < dim
        ensures (x, y) in PairsFrom(j, dim)
      {
        if x == j {
          assert row[y - j] == (x, y);
        } else {
          assert (x, y) in rest;
        }
      }
    }
  }

  /** The tensor dimension counts the canonical index pairs: the list holds
      every pair `j <= k < dim` exactly once, so `dim*(dim-1)/2 + dim` is
      the number of independent components of a symmetric tensor. */
  lemma TensorDimensionCountsPairs(dim: nat)
    ensures |SymmetricIndexPairs(dim)| == TensorDimension(dim)
    ensures forall x: nat, y: nat :: (x, y) in SymmetricIndexPairs(dim) <==> x <= y < dim
    ensures forall a, b :: 0 <= a < b < |SymmetricIndexPairs(dim)| ==>
              SymmetricIndexPairs(dim)[a] != SymmetricIndexPairs(dim)[b]
  {
    PairsFromShape(0, dim);
    var P := SymmetricIndexPairs(dim);
    assert 2 * |P| == dim * (dim + 1);
    assert dim * (dim + 1) == dim * (dim - 1) + 2 * dim;
    forall a, b | 0 <= a < b < |P|
      ensures P[a] != P[b]
    {
      assert PairBefore(P[a], P[b]);
    }
  }

  /** The canonical lists written out for triangles and tetrahedra. */
  lemma CanonicalPairs()
    ensures SymmetricIndexPairs(2) == [(0, 0), (0, 1), (1, 1)]
    ensures SymmetricIndexPairs(3) == [(0, 0), (0, 1), (0, 2), (1, 1), (1, 2), (2, 2)]
  {
    assert PairsFrom(2, 2) == [];
    assert PairsFrom(1, 2) == [(1, 1)];
    assert PairsFrom(3, 3) == [];
    assert PairsFrom(2, 3) == [(2, 2)];
    assert PairsFrom(1, 3) == [(1, 1), (1, 2), (2, 2)];
  }

  /** Local edges of a cell: 3 for a triangle, 6 for a tetrahedron. */
  function EdgesPerCell(dim: nat): nat
    requires SupportedDimension(dim)
  {
    if dim == 2 then 3 else 6
  }

  /** Interior DOFs of a degree-`p` Lagrange space on one edge. */
  function EdgeDofs(p: nat): nat
    requires p >= 1
  {
    p - 1
  }

  /** Interior DOFs of a degree-`p` Lagrange space on one triangle (the
      triangle's cell DOFs in 2D, a face's DOFs in 3D). */
  function TriangleInteriorDofs(p: nat): nat
    requires p >= 1
  {
    if p <= 2 then 0 else (p - 1) * (p - 2) / 2
  }

  /** Interior DOFs of a degree-`p` Lagrange space on one tetrahedron. */
  function TetrahedronInteriorDofs(p: nat): nat
    requires p >= 1
  {
    if p <= 3 then 0 else (p - 1) * (p - 2) * (p - 3) / 6
  }

  /** Local DOF count of the scalar Lagrange space of degree `p`. */
  function ScalarLocalDofs(dim: nat, p: nat): nat
    requires SupportedDimension(dim)
  {
    if dim == 2 then (p + 1) * (p + 2) / 2 else (p + 1) * (p + 2) * (p + 3) / 6
  }

  /** `(p+1)(p+2)/2 - 3p`, the expression `mixed_fem_space.py` evaluates
      for the triangle-interior count, is that count. */
  lemma TriangleInteriorClosedForm(p: nat)
    requires p >= 1
    ensures (p + 1) * (p + 2) / 2 - 3 * p == TriangleInteriorDofs(p)
  {
    var a := (p - 1) * (p - 2);
    assert (p + 1) * (p + 2) == a + 2 * (3 * p);
    assert (a + 2 * (3 * p)) / 2 == a / 2 + 3 * p;
    if p <= 2 {
      assert a == 0;
    }
  }

  lemma CubicShift(p: int)
    ensures (p + 1) * (p + 2) * (p + 3) == (p - 1) * (p - 2) * (p - 3) + 6 * (2 * p * p + 2)
  {
    assert (p + 1) * (p + 2) == p * p + 3 * p + 2;
    assert (p - 1) * (p - 2) == p * p - 3 * p + 2;
    assert (p * p + 3 * p + 2) * (p + 3) == p * p * p + 6 * p * p + 11 * p + 6;
    assert (p * p - 3 * p + 2) * (p - 3) == p * p * p - 6 * p * p + 11 * p - 6;
  }

  lemma SixthShift(a: int, s: int)
    ensures (a + 6 * s) / 6 == a / 6 + s
  {
  }

  lemma HalfOfDouble(m: int)
    ensures 2 * (2 * m / 2) == 2 * m
  {
  }

  lemma ConsecutiveProductEven(n: nat)
    ensures 2 * (n * (n + 1) / 2) == n * (n + 1)
  {
    var k := n / 2;
    var m;
    if n % 2 == 0 {
      assert n == 2 * k;
      m := k * (n + 1);
      assert n * (n + 1) == 2 * k * (n + 1);
    } else {
      assert n + 1 == 2 * (k + 1);
      m := n * (k + 1);
      assert n * (n + 1) == n * (2 * (k + 1));
    }
    assert n * (n + 1) == 2 * m;
    HalfOfDouble(m);
  }

  /** Six edge, four face and four vertex blocks of a tetrahedron together
      hold `2p^2 + 2` DOFs. */
  lemma TetrahedronBoundaryDofs(p: nat)
    requires p >= 1
    ensures 6 * (p - 1) + 4 * TriangleInteriorDofs(p) + 4 == 2 * p * p + 2
  {
    if p > 2 {
      var n: nat := p - 2;
      ConsecutiveProductEven(n);
      assert (p - 1) * (p - 2) == n * (n + 1);
      assert 2 * TriangleInteriorDofs(p) == (p - 1) * (p - 2);
      assert (p - 1) * (p - 2) == p * p - 3 * p + 2;
    }
  }

  lemma TetrahedronTotal(p: nat)
    ensures ScalarLocalDofs(3, p) == (p - 1) * (p - 2) * (p - 3) / 6 + (2 * p * p + 2)
  {
    CubicShift(p);
    SixthShift((p - 1) * (p - 2) * (p - 3), 2 * p * p + 2);
  }

  /** The remainder `ldof - 6*edof - 4*fdof - 4` that `mixed_fem_space.py`
      evaluates for tetrahedra is the tetrahedron-interior count. */
  lemma TetrahedronInteriorClosedForm(p: nat)
    requires p >= 1
    ensures ScalarLocalDofs(3, p) - 6 * (p - 1) - 4 * ((p + 1) * (p + 2) / 2 - 3 * p) - 4
            == TetrahedronInteriorDofs(p)
  {
    TriangleInteriorClosedForm(p);
    TetrahedronBoundaryDofs(p);
    TetrahedronTotal(p);
    if p <= 3 {
      assert (p - 1) * (p - 2) * (p - 3) == 0;
    }
  }

  /** The face-interior count as `mixed_fem_space.py` evaluates it,
      `(p+1)*(p+2)//2 - 3*p`. */
  function SourceFaceDofs(p: nat): (r: nat)
    requires p >= 1
    ensures r == TriangleInteriorDofs(p)
  {
    TriangleInteriorClosedForm(p);
    (p + 1) * (p + 2) / 2 - 3 * p
  }

  /** The cell-interior count of a tetrahedron as `mixed_fem_space.py`
      evaluates it from the scalar local count, `ldof - 4*fdof - 6*edof - 4`. */
  function SourceCellDofs(ldof: nat, p: nat): (r: nat)
    requires p >= 1 && ldof == ScalarLocalDofs(3, p)
    ensures r == TetrahedronInteriorDofs(p)
  {
    TetrahedronInteriorClosedForm(p);
    ldof - 4 * SourceFaceDofs(p) - 6 * (p - 1) - 4
  }

  /** Faces carry interior DOFs from degree 3 on. */
  lemma TriangleInteriorPositive(p: nat)
    requires p >= 3
    ensures TriangleInteriorDofs(p) >= 1
  {
    assert (p - 1) * (p - 2) >= 2;
  }

  /** Tetrahedra carry interior DOFs from degree 4 on. */
  lemma TetrahedronInteriorPositive(p: nat)
    requires p >= 4
    ensures TetrahedronInteriorDofs(p) >= 1
  {
    var a := (p - 1) * (p - 2);
    assert a >= 6;
    assert a * (p - 3) >= a;
  }

  /** Number of local tensor DOFs: one per pair of a scalar local DOF and
      a canonical index pair, so three per scalar DOF on triangles and six
      on tetrahedra. */
  function NumberOfLocalDofs(dim: nat, scalarLdof: nat): (r: nat)
    ensures r == |SymmetricIndexPairs(dim)| * scalarLdof
    ensures dim == 2 ==> r == 3 * scalarLdof
    ensures dim == 3 ==> r == 6 * scalarLdof
  {
    TensorDimensionCountsPairs(dim);
    TensorDimension(dim) * scalarLdof
  }

  /** The sum `number_of_global_dofs` accumulates, branch for branch: the
      vertex block, then the shared and per-cell edge blocks from degree 2,
      the face (cell, in 2D) blocks from degree 3 and the
      tetrahedron-interior block from degree 4. */
  function SourceGlobalCount(dim: nat, p: nat, N: nat, NE: nat, NF: nat, NC: nat): int
    requires SupportedDimension(dim) && p >= 1
  {
    var tdim := TensorDimension(dim);
    var g0 := tdim * N;
    var edof := p - 1;
    var g1 := if p > 1 then g0 + (tdim - 1) * edof * NE + NC * EdgesPerCell(dim) * edof else g0;
    var fdof := SourceFaceDofs(p);
    var g2 := if p > 2 then
                (if dim == 2 then g1 + tdim * fdof * NC else g1 + 3 * fdof * NF + 3 * 4 * fdof * NC)
              else g1;
    var g3 := if p > 3 && dim == 3 then g2 + tdim * SourceCellDofs(ScalarLocalDofs(3, p), p) * NC else g2;
    g3
  }

  /** On triangles the branches sum to one closed form for every degree. */
  lemma SourceGlobalCount2d(p: nat, N: nat, NE: nat, NF: nat, NC: nat)
    requires p >= 1
    ensures SourceGlobalCount(2, p, N, NE, NF, NC)
            == 3 * N + 2 * EdgeDofs(p) * NE + 3 * EdgeDofs(p) * NC + 3 * TriangleInteriorDofs(p) * NC
  {
    if p == 1 { } else if p == 2 { } else {
      assert (3 - 1) * (p - 1) * NE == 2 * EdgeDofs(p) * NE;
      assert NC * 3 * (p - 1) == 3 * EdgeDofs(p) * NC;
    }
  }

  /** On tetrahedra the branches sum to one closed form for every degree. */
  lemma SourceGlobalCount3d(p: nat, N: nat, NE: nat, NF: nat, NC: nat)
    requires p >= 1
    ensures SourceGlobalCount(3, p, N, NE, NF, NC)
            == 6 * N + 5 * EdgeDofs(p) * NE + 6 * EdgeDofs(p) * NC
               + 3 * TriangleInteriorDofs(p) * NF + 12 * TriangleInteriorDofs(p) * NC
               + 6 * TetrahedronInteriorDofs(p) * NC
  {
    if p == 1 { } else if p == 2 {
      assert (6 - 1) * (p - 1) * NE == 5 * EdgeDofs(p) * NE;
    } else {
      assert (6 - 1) * (p - 1) * NE == 5 * EdgeDofs(p) * NE;
      assert NC * 6 * (p - 1) == 6 * EdgeDofs(p) * NC;
    }
  }

  /** `number_of_global_dofs`: whatever the degree, the count is the sum of
      the blocks the DOF map fills, one per (entity DOF, component) for the
      shared blocks and one per (cell, local DOF, component) for the
      per-cell blocks. */
  function NumberOfGlobalDofs(dim: nat, p: nat, N: nat, NE: nat, NF: nat, NC: nat): (r: int)
    requires SupportedDimension(dim) && p >= 1
    ensures dim == 2 ==>
              r == 3 * N + 2 * EdgeDofs(p) * NE + 3 * EdgeDofs(p) * NC + 3 * TriangleInteriorDofs(p) * NC
    ensures dim == 3 ==>
              r == 6 * N + 5 * EdgeDofs(p) * NE + 6 * EdgeDofs(p) * NC
                   + 3 * TriangleInteriorDofs(p) * NF + 12 * TriangleInteriorDofs(p) * NC
                   + 6 * TetrahedronInteriorDofs(p) * NC
  {
    if dim == 2 then SourceGlobalCount2d(p, N, NE, NF, NC); SourceGlobalCount(dim, p, N, NE, NF, NC)
    else SourceGlobalCount3d(p, N, NE, NF, NC); SourceGlobalCount(dim, p, N, NE, NF, NC)
  }

  /** Location masks the scalar Lagrange space reports for its local DOFs:
      on a vertex, on each local edge, on each local face (3D only). */
  datatype ScalarMasks = ScalarMasks(onNode: seq<bool>, onEdge: seq<seq<bool>>, onFace: seq<seq<bool>>)

  predicate WellShaped(dim: nat, m: ScalarMasks)
    requires SupportedDimension(dim)
  {
    && |m.onEdge| == |m.onNode|
    && (forall i :: 0 <= i < |m.onEdge| ==> |m.onEdge[i]| == EdgesPerCell(dim))
    && (dim == 3 ==>
          |m.onFace| == |m.onNode| && forall i :: 0 <= i < |m.onFace| ==> |m.onFace[i]| == 4)
  }

  /** Row `i` of an entity mask has a set entry. */
  predicate OnSome(row: seq<bool>) {
    exists e :: 0 <= e < |row| && row[e]
  }

  /** `M[mask] = False`: clears the rows selected by `mask`. */
  function ClearRows(M: seq<seq<bool>>, mask: seq<bool>): (r: seq<seq<bool>>)
    requires |mask| == |M|
    ensures |r| == |M|
    ensures forall i :: 0 <= i < |M| ==> |r[i]| == |M[i]|
    ensures forall i, e :: 0 <= i < |M| && 0 <= e < |M[i]| ==> (r[i][e] <==> !mask[i] && M[i][e])
  {
    seq(|M|, i requires 0 <= i < |M| => if mask[i] then seq(|M[i]|, _ => false) else M[i])
  }

  /** `np.sum(M, axis=-1) > 0`: rows with some set entry. */
  function AnyPerRow(M: seq<seq<bool>>): (r: seq<bool>)
    ensures |r| == |M|
    ensures forall i :: 0 <= i < |M| ==> (r[i] <==> OnSome(M[i]))
  {
    var r := seq(|M|, i requires 0 <= i < |M| => Count(M[i]) > 0);
    assert forall i :: 0 <= i < |M| ==> (r[i] <==> OnSome(M[i])) by {
      forall i | 0 <= i < |M|
        ensures r[i] <==> OnSome(M[i])
      {
        CountPositive(M[i]);
      }
    }
    r
  }

  /** A row survives clearing and collapsing exactly when it was not
      cleared and had a set entry. */
  lemma ClearedRowsCollapse(M: seq<seq<bool>>, mask: seq<bool>)
    requires |mask| == |M|
    ensures forall i :: 0 <= i < |M| ==> (AnyPerRow(ClearRows(M, mask))[i] <==> !mask[i] && OnSome(M[i]))
  {
    var C := ClearRows(M, mask);
    forall i | 0 <= i < |M|
      ensures AnyPerRow(C)[i] <==> !mask[i] && OnSome(M[i])
    {
      if OnSome(C[i]) {
        var e :| 0 <= e < |C[i]| && C[i][e];
        assert M[i][e];
      }
      if !mask[i] && OnSome(M[i]) {
        var e :| 0 <= e < |M[i]| && M[i][e];
        assert C[i][e];
      }
    }
  }

  /** The four DOF classes of `dof_flags_1`; `face` is all false in 2D,
      where `dof_flags_1` returns only three masks. */
  datatype LocalDofFlags = LocalDofFlags(point: seq<bool>, edge: seq<bool>, face: seq<bool>, interior: seq<bool>)

  function Indicator(b: bool): nat {
    if b then 1 else 0
  }

  /** The masks have one common length and put every local DOF in exactly
      one class. */
  predicate Partition(f: LocalDofFlags) {
    && |f.edge| == |f.point| && |f.face| == |f.point| && |f.interior| == |f.point|
    && forall i :: 0 <= i < |f.point| ==>
         Indicator(f.point[i]) + Indicator(f.edge[i]) + Indicator(f.face[i]) + Indicator(f.interior[i]) == 1
  }

  /** Class of the edge-interior DOFs: not on a vertex, on some edge. */
  predicate EdgeInterior(m: ScalarMasks, i: nat)
    requires i < |m.onNode| && i < |m.onEdge|
  {
    !m.onNode[i] && OnSome(m.onEdge[i])
  }

  /** `dof_flags_1`: point DOFs, edge-interior DOFs (point DOFs removed
      from the per-edge mask before it is collapsed), face-interior DOFs
      (3D; point and edge DOFs removed first) and the rest. */
  function DofFlags1(dim: nat, m: ScalarMasks): (r: LocalDofFlags)
    requires SupportedDimension(dim) && WellShaped(dim, m)
    ensures Partition(r) && |r.point| == |m.onNode|
    ensures forall i :: 0 <= i < |m.onNode| ==> (r.point[i] <==> m.onNode[i])
    ensures forall i :: 0 <= i < |m.onNode| ==> (r.edge[i] <==> EdgeInterior(m, i))
    ensures forall i :: 0 <= i < |m.onNode| ==>
              (r.face[i] <==> dim == 3 && !m.onNode[i] && !EdgeInterior(m, i) && OnSome(m.onFace[i]))
  {
    var isPoint := m.onNode;
    var isEdge := ClearRows(m.onEdge, isPoint);
    var isEdge0 := AnyPerRow(isEdge);
    ClearedRowsCollapse(m.onEdge, isPoint);
    var n := |isPoint|;
    if dim == 2 then
      LocalDofFlags(isPoint, isEdge0, seq(n, _ => false),
                    seq(n, i requires 0 <= i < n => !(isPoint[i] || isEdge0[i])))
    else
      var isFace := ClearRows(ClearRows(m.onFace, isPoint), isEdge0);
      var isFace0 := AnyPerRow(isFace);
      ClearedRowsCollapse(m.onFace, isPoint);
      ClearedRowsCollapse(ClearRows(m.onFace, isPoint), isEdge0);
      LocalDofFlags(isPoint, isEdge0, isFace0,
                    seq(n, i requires 0 <= i < n => !(isPoint[i] || isEdge0[i] || isFace0[i])))
  }

  /** What `dof_flags` returns for basis evaluation: the DOFs that are
      neither edge- nor face-interior, and the per-edge (per-face, 3D) masks
      with the excluded classes cleared; `face` is empty in 2D. */
  datatype BasisDofFlags = BasisDofFlags(other: seq<bool>, edge: seq<seq<bool>>, face: seq<seq<bool>>)

  /** `dof_flags`. */
  function DofFlags(dim: nat, m: ScalarMasks): (r: BasisDofFlags)
    requires SupportedDimension(dim) && WellShaped(dim, m)
    ensures |r.other| == |m.onNode| && |r.edge| == |m.onNode|
    ensures dim == 3 ==> |r.face| == |m.onNode|
    ensures forall i, e :: 0 <= i < |m.onNode| && 0 <= e < |m.onEdge[i]| ==>
              |r.edge[i]| == |m.onEdge[i]| && (r.edge[i][e] <==> !m.onNode[i] && m.onEdge[i][e])
    ensures dim == 3 ==> forall i, f :: 0 <= i < |m.onNode| && 0 <= f < |m.onFace[i]| ==>
              |r.face[i]| == |m.onFace[i]|
              && (r.face[i][f] <==> !m.onNode[i] && !EdgeInterior(m, i) && m.onFace[i][f])
    ensures forall i :: 0 <= i < |m.onNode| ==>
              (r.other[i] <==> !EdgeInterior(m, i) && !(dim == 3 && !m.onNode[i] && OnSome(m.onFace[i])))
  {
    var isPoint := m.onNode;
    var isEdge := ClearRows(m.onEdge, isPoint);
    var isEdge0 := AnyPerRow(isEdge);
    ClearedRowsCollapse(m.onEdge, isPoint);
    var isOther := seq(|isEdge0|, i requires 0 <= i < |isEdge0| => !isEdge0[i]);
    if dim == 2 then
      BasisDofFlags(isOther, isEdge, [])
    else
      var isFace := ClearRows(ClearRows(m.onFace, isPoint), isEdge0);
      var isFace0 := AnyPerRow(isFace);
      ClearedRowsCollapse(m.onFace, isPoint);
      ClearedRowsCollapse(ClearRows(m.onFace, isPoint), isEdge0);
      BasisDofFlags(seq(|isOther|, i requires 0 <= i < |isOther| => isOther[i] && !isFace0[i]),
                    isEdge, isFace)
  }

  /** The two classifications agree: `dof_flags`'s "other" DOFs are the
      point and interior DOFs of `dof_flags_1`, and its cleared edge (face)
      rows are non-empty exactly for the edge (face) class. */
  lemma DofFlagsAgree(dim: nat, m: ScalarMasks, i: nat)
    requires SupportedDimension(dim) && WellShaped(dim, m) && i < |m.onNode|
    ensures DofFlags(dim, m).other[i] <==> DofFlags1(dim, m).point[i] || DofFlags1(dim, m).interior[i]
    ensures OnSome(DofFlags(dim, m).edge[i]) <==> DofFlags1(dim, m).edge[i]
    ensures dim == 3 ==> (OnSome(DofFlags(dim, m).face[i]) <==> DofFlags1(dim, m).face[i])
  {
    var r := DofFlags(dim, m);
    var f := DofFlags1(dim, m);
    if OnSome(r.edge[i]) {
      var e :| 0 <= e < |r.edge[i]| && r.edge[i][e];
      assert m.onEdge[i][e];
    }
    if f.edge[i] {
      var e :| 0 <= e < |m.onEdge[i]| && m.onEdge[i][e];
      assert r.edge[i][e];
    }
    if dim == 3 {
      if OnSome(r.face[i]) {
        var e :| 0 <= e < |r.face[i]| && r.face[i][e];
        assert m.onFace[i][e];
      }
      if f.face[i] {
        var e :| 0 <= e < |m.onFace[i]| && m.onFace[i][e];
        assert r.face[i][e];
      }
    }
  }
}
