/** The global DOF map of the Hu-Zhang space on a tetrahedral mesh
    (`init_cell_to_dof` with `dim == 3`).

    Every local scalar DOF `i` of cell `c` carries `tdim = 6` tensor
    components `k`. The map numbers them in six consecutive blocks: point
    DOFs (`6*s + k`); the shared components `k = 1..5` of edge-interior
    DOFs; the shared components `k = 3..5` of face-interior DOFs; the
    cell-interior DOFs (all six components); one fresh index per cell for
    component 0 of every local edge-interior DOF; and three fresh indices
    per cell for components `0..2` of every local face-interior DOF. The
    fresh indices make those components discontinuous between cells. The
    result is reshaped to one row of `6*ldof` entries per cell, slot
    `6*i + k`. */
module HuZhangDofMap3d {
  import opened Options
  import opened Masks
  import opened HuZhangLayout
  import opened RowMajor

  /** What the mesh and the scalar Lagrange space of degree `p` supply:
      node, edge, face and cell counts, the scalar cell-to-DOF map `c2d`
      and the DOF classes of `dof_flags_1`. */
  datatype TetSpace = TetSpace(p: nat, N: nat, NE: nat, NF: nat, NC: nat,
                               c2d: seq<seq<nat>>, flags: LocalDofFlags)
  {
    function Ldof(): nat {
      |flags.point|
    }
    /** Scalar DOFs on nodes and edges. */
    function EdgeEnd(): nat
      requires p >= 1
    {
      N + EdgeDofs(p) * NE
    }
    /** Scalar DOFs on nodes, edges and faces. */
    function FaceEnd(): nat
      requires p >= 1
    {
      EdgeEnd() + TriangleInteriorDofs(p) * NF
    }
    /** Number of scalar DOFs. */
    function ScalarEnd(): nat
      requires p >= 1
    {
      FaceEnd() + TetrahedronInteriorDofs(p) * NC
    }
  }

  /** The scalar DOF `s` at local DOF `i` lies in the block of its class:
      node DOFs first, then edge-interior, face-interior and
      cell-interior DOFs. */
  predicate InScalarBlock(sp: TetSpace, i: nat, s: nat)
    requires sp.p >= 1 && i < |sp.flags.point| && Partition(sp.flags)
  {
    && (sp.flags.point[i] ==> s < sp.N)
    && (sp.flags.edge[i] ==> sp.N <= s < sp.EdgeEnd())
    && (sp.flags.face[i] ==> sp.EdgeEnd() <= s < sp.FaceEnd())
    && (sp.flags.interior[i] ==> sp.FaceEnd() <= s < sp.ScalarEnd())
  }

  /** The layout of the scalar space that the tensor numbering relies on. */
  predicate Valid(sp: TetSpace) {
    && sp.p >= 1
    && Partition(sp.flags)
    && |sp.c2d| == sp.NC
    && (forall c :: 0 <= c < |sp.c2d| ==> |sp.c2d[c]| == sp.Ldof())
    && (forall c, i :: 0 <= c < |sp.c2d| && 0 <= i < |sp.c2d[c]| ==> InScalarBlock(sp, i, sp.c2d[c][i]))
  }

  /** The local class sizes of the degree-`p` Lagrange space on a
      tetrahedron: 4 vertex DOFs, `p-1` on each of 6 edges, the
      triangle-interior count on each of 4 faces, and the interior ones. */
  predicate LagrangeCounts(sp: TetSpace)
    requires sp.p >= 1
  {
    && sp.Ldof() == ScalarLocalDofs(3, sp.p)
    && Count(sp.flags.point) == 4
    && Count(sp.flags.edge) == 6 * EdgeDofs(sp.p)
    && Count(sp.flags.face) == 4 * TriangleInteriorDofs(sp.p)
    && Count(sp.flags.interior) == TetrahedronInteriorDofs(sp.p)
  }

  /** Scalar DOF `s` occurs in some cell. */
  predicate Occurs(sp: TetSpace, s: nat) {
    exists c, i :: 0 <= c < |sp.c2d| && 0 <= i < |sp.c2d[c]| && sp.c2d[c][i] == s
  }

  /** Start offsets of the blocks whose position depends on which classes
      are present: scalar and tensor starts of the face-interior and
      cell-interior blocks, and the starts of the two per-cell blocks. */
  datatype Offsets = Offsets(faceScalar: nat, faceTensor: nat, interiorScalar: nat, interiorTensor: nat,
                             edgeTangential: nat, faceTangential: nat)

  /** The scalar offsets never pass the start of their scalar block. */
  predicate Fits(o: Offsets, sp: TetSpace)
    requires sp.p >= 1
  {
    o.faceScalar <= sp.EdgeEnd() && o.interiorScalar <= sp.FaceEnd()
  }

  /** The offsets of the block layout the numbering is designed for. */
  function IntendedOffsets(sp: TetSpace): (o: Offsets)
    requires sp.p >= 1
    ensures Fits(o, sp)
    ensures o.faceTensor == BlockStart(sp, SharedFaceBlock)
    ensures o.interiorTensor == BlockStart(sp, InteriorBlock)
    ensures o.edgeTangential == BlockStart(sp, EdgeTangentialBlock)
    ensures o.faceTangential == BlockStart(sp, FaceTangentialBlock)
  {
    var edgeScalars: nat := EdgeDofs(sp.p) * sp.NE;
    var faceScalars: nat := TriangleInteriorDofs(sp.p) * sp.NF;
    var cellScalars: nat := TetrahedronInteriorDofs(sp.p) * sp.NC;
    var faceTensor := 6 * sp.N + 5 * edgeScalars;
    var interiorTensor := faceTensor + 3 * faceScalars;
    var edgeTangential := interiorTensor + 6 * cellScalars;
    Offsets(sp.EdgeEnd(), faceTensor, sp.FaceEnd(), interiorTensor, edgeTangential,
            edgeTangential + sp.NC * Count(sp.flags.edge))
  }

  /** The offsets as `init_cell_to_dof` accumulates them in `base0` and
      `base1`. Each block is skipped past only when the class numbered
      after it is present, and the edge-DOF count `edof` is bound only
      when face-interior DOFs exist; without them `init_cell_to_dof` raises
      `UnboundLocalError` on reading it, which is `None` here. */
  function WrittenOffsets(sp: TetSpace): (r: Option<Offsets>)
    requires sp.p >= 1 && sp.Ldof() == ScalarLocalDofs(3, sp.p)
    ensures r.Some? <==> Count(sp.flags.face) > 0
    ensures r.Some? ==> Fits(r.value, sp)
  {
    var hasEdge := Count(sp.flags.edge) > 0;
    var hasFace := Count(sp.flags.face) > 0;
    var hasInterior := Count(sp.flags.interior) > 0;
    if !hasFace then None
    else
      var edof: nat := sp.p - 1;
      var fdof := SourceFaceDofs(sp.p);
      var cdof := SourceCellDofs(sp.Ldof(), sp.p);
      var edgeScalars: nat := edof * sp.NE;
      var faceScalars: nat := fdof * sp.NF;
      var cellScalars: nat := cdof * sp.NC;
      var base0: nat := if hasEdge then sp.N else 0;
      var base1: nat := if hasEdge then 6 * sp.N else 0;
      var faceScalar := base0 + edgeScalars;
      var faceTensor := base1 + (6 - 1) * edgeScalars;
      var interiorScalar := if hasInterior then faceScalar + faceScalars else faceScalar;
      var interiorTensor := if hasInterior then faceTensor + (6 - 3) * faceScalars else faceTensor;
      var edgeTangential := if hasEdge then interiorTensor + 6 * cellScalars else interiorTensor;
      Some(Offsets(faceScalar, faceTensor, interiorScalar, interiorTensor, edgeTangential,
                   edgeTangential + sp.NC * Count(sp.flags.edge)))
  }

  /** Global index of component `k` of local scalar DOF `i` in cell `c`.
      Whatever the offsets, node components stay below `6N`, shared edge
      components fill the five slots per edge scalar DOF after them, and
      the tangential, shared face and interior components lie in the
      ranges that start at their offsets. */
  function Entry(o: Offsets, sp: TetSpace, c: nat, i: nat, k: nat): (r: nat)
    requires Valid(sp) && Fits(o, sp) && c < sp.NC && i < sp.Ldof() && k < 6
    ensures sp.flags.point[i] ==> r < 6 * sp.N
    ensures sp.flags.edge[i] && k > 0 ==> 6 * sp.N <= r < 6 * sp.N + 5 * (sp.EdgeEnd() - sp.N)
    ensures sp.flags.edge[i] && k == 0 ==>
              o.edgeTangential <= r < o.edgeTangential + sp.NC * Count(sp.flags.edge)
    ensures sp.flags.face[i] && k < 3 ==>
              o.faceTangential <= r < o.faceTangential + 3 * (sp.NC * Count(sp.flags.face))
    ensures sp.flags.face[i] && k >= 3 ==>
              o.faceTensor <= r < o.faceTensor + 3 * (sp.FaceEnd() - o.faceScalar)
    ensures sp.flags.interior[i] ==>
              o.interiorTensor <= r < o.interiorTensor + 6 * (sp.ScalarEnd() - o.interiorScalar)
  {
    var s := sp.c2d[c][i];
    assert InScalarBlock(sp, i, s);
    if sp.flags.point[i] then 6 * s + k
    else if sp.flags.edge[i] then
      if k == 0 then
        RankIndexesNonzero(sp.flags.edge, i);
        MulStep(c, sp.NC, Count(sp.flags.edge));
        o.edgeTangential + Flat(c, Count(sp.flags.edge), Rank(sp.flags.edge, i))
      else 6 * sp.N + 5 * (s - sp.N) + (k - 1)
    else if sp.flags.face[i] then
      if k < 3 then
        RankIndexesNonzero(sp.flags.face, i);
        MulStep(c, sp.NC, Count(sp.flags.face));
        o.faceTangential + 3 * Flat(c, Count(sp.flags.face), Rank(sp.flags.face, i)) + k
      else o.faceTensor + 3 * (s - o.faceScalar) + (k - 3)
    else o.interiorTensor + 6 * (s - o.interiorScalar) + k
  }

  /** The entry of slot `m` of row `c`: component `m % 6` of local DOF
      `m / 6`. */
  function SlotEntry(o: Offsets, sp: TetSpace, c: nat, m: nat): (r: nat)
    requires Valid(sp) && Fits(o, sp) && c < sp.NC && m < 6 * sp.Ldof()
    ensures forall i, k :: 0 <= i < sp.Ldof() && 0 <= k < 6 && m == 6 * i + k ==> r == Entry(o, sp, c, i, k)
  {
    Entry(o, sp, c, m / 6, m % 6)
  }

  /** The reshaped map: row `c` holds component `k` of local DOF `i` at
      slot `6*i + k`. */
  function Table(o: Offsets, sp: TetSpace): (t: seq<seq<nat>>)
    requires Valid(sp) && Fits(o, sp)
    ensures |t| == sp.NC
    ensures forall c :: 0 <= c < sp.NC ==> |t[c]| == 6 * sp.Ldof() == NumberOfLocalDofs(3, sp.Ldof())
    ensures forall c, i, k :: 0 <= c < sp.NC && 0 <= i < sp.Ldof() && 0 <= k < 6 ==>
              t[c][6 * i + k] == Entry(o, sp, c, i, k)
  {
    seq(sp.NC, c requires 0 <= c < sp.NC =>
      seq(6 * sp.Ldof(), m requires 0 <= m < 6 * sp.Ldof() => SlotEntry(o, sp, c, m)))
  }

  /** `init_cell_to_dof` with the block offsets it is designed for. */
  function CellToDof(sp: TetSpace): (t: seq<seq<nat>>)
    requires Valid(sp)
    ensures |t| == sp.NC
    ensures forall c :: 0 <= c < sp.NC ==> |t[c]| == NumberOfLocalDofs(3, sp.Ldof())
    ensures LagrangeCounts(sp) ==>
              forall c, m :: 0 <= c < sp.NC && 0 <= m < |t[c]| ==>
                t[c][m] < NumberOfGlobalDofs(3, sp.p, sp.N, sp.NE, sp.NF, sp.NC)
  {
    IntendedEntriesBelowGlobalCount(sp);
    Table(IntendedOffsets(sp), sp)
  }

  lemma IntendedEntriesBelowGlobalCount(sp: TetSpace)
    requires Valid(sp)
    ensures LagrangeCounts(sp) ==>
              forall c, m :: 0 <= c < sp.NC && 0 <= m < 6 * sp.Ldof() ==>
                Table(IntendedOffsets(sp), sp)[c][m] < NumberOfGlobalDofs(3, sp.p, sp.N, sp.NE, sp.NF, sp.NC)
  {
    if LagrangeCounts(sp) {
      BlocksTileGlobalRange(sp);
      var G := NumberOfGlobalDofs(3, sp.p, sp.N, sp.NE, sp.NF, sp.NC);
      forall c | 0 <= c < sp.NC
        ensures forall m :: 0 <= m < 6 * sp.Ldof() ==> Table(IntendedOffsets(sp), sp)[c][m] < G
      {
        forall i, k | 0 <= i < sp.Ldof() && 0 <= k < 6
          ensures Entry(IntendedOffsets(sp), sp, c, i, k) < G
        {
          EntryInBlock(sp, c, i, k);
        }
        RowBelow(IntendedOffsets(sp), sp, c, G);
      }
    }
  }

  /** `init_cell_to_dof` as written (`mixed_fem_space.py`, lines 130-171): no map
      at all when there are no face-interior DOFs. */
  function CellToDofAsWritten(sp: TetSpace): (r: Option<seq<seq<nat>>>)
    requires Valid(sp) && sp.Ldof() == ScalarLocalDofs(3, sp.p)
    ensures r.Some? <==> Count(sp.flags.face) > 0
    ensures r.Some? ==> |r.value| == sp.NC
    ensures r.Some? ==> forall c :: 0 <= c < sp.NC ==> |r.value[c]| == NumberOfLocalDofs(3, sp.Ldof())
  {
    var w := WrittenOffsets(sp);
    if w.None? then None else Some(Table(w.value, sp))
  }

  /** A bound on the entries of every slot of row `c` bounds the row. */
  lemma RowBelow(o: Offsets, sp: TetSpace, c: nat, bound: nat)
    requires Valid(sp) && Fits(o, sp) && c < sp.NC
    requires forall i, k :: 0 <= i < sp.Ldof() && 0 <= k < 6 ==> Entry(o, sp, c, i, k) < bound
    ensures forall m :: 0 <= m < 6 * sp.Ldof() ==> Table(o, sp)[c][m] < bound
  {
    forall m | 0 <= m < 6 * sp.Ldof()
      ensures Table(o, sp)[c][m] < bound
    {
      var i, k := RowMajorSplit(m, sp.Ldof(), 6);
      assert Table(o, sp)[c][6 * i + k] == Entry(o, sp, c, i, k);
    }
  }

  // ----- the six index blocks -----

  datatype Block = NodeBlock | SharedEdgeBlock | SharedFaceBlock | InteriorBlock
                 | EdgeTangentialBlock | FaceTangentialBlock

  /** Position of a block in the pass order. */
  function Order(b: Block): nat {
    match b
    case NodeBlock => 0
    case SharedEdgeBlock => 1
    case SharedFaceBlock => 2
    case InteriorBlock => 3
    case EdgeTangentialBlock => 4
    case FaceTangentialBlock => 5
  }

  /** The block component `k` of local DOF `i` is numbered in. */
  function BlockOf(sp: TetSpace, i: nat, k: nat): Block
    requires i < |sp.flags.point| && Partition(sp.flags)
  {
    if sp.flags.point[i] then NodeBlock
    else if sp.flags.edge[i] then (if k == 0 then EdgeTangentialBlock else SharedEdgeBlock)
    else if sp.flags.face[i] then (if k < 3 then FaceTangentialBlock else SharedFaceBlock)
    else InteriorBlock
  }

  function BlockSize(sp: TetSpace, b: Block): nat
    requires sp.p >= 1
  {
    match b
    case NodeBlock => 6 * sp.N
    case SharedEdgeBlock => 5 * (EdgeDofs(sp.p) * sp.NE)
    case SharedFaceBlock => 3 * (TriangleInteriorDofs(sp.p) * sp.NF)
    case InteriorBlock => 6 * (TetrahedronInteriorDofs(sp.p) * sp.NC)
    case EdgeTangentialBlock => sp.NC * Count(sp.flags.edge)
    case FaceTangentialBlock => 3 * (sp.NC * Count(sp.flags.face))
  }

  /** First index of a block: each block starts where the one before it in
      the pass order ends. */
  function BlockStart(sp: TetSpace, b: Block): nat
    requires sp.p >= 1
    decreases Order(b)
  {
    match b
    case NodeBlock => 0
    case SharedEdgeBlock => BlockStart(sp, NodeBlock) + BlockSize(sp, NodeBlock)
    case SharedFaceBlock => BlockStart(sp, SharedEdgeBlock) + BlockSize(sp, SharedEdgeBlock)
    case InteriorBlock => BlockStart(sp, SharedFaceBlock) + BlockSize(sp, SharedFaceBlock)
    case EdgeTangentialBlock => BlockStart(sp, InteriorBlock) + BlockSize(sp, InteriorBlock)
    case FaceTangentialBlock => BlockStart(sp, EdgeTangentialBlock) + BlockSize(sp, EdgeTangentialBlock)
  }

  predicate InBlock(sp: TetSpace, b: Block, g: nat)
    requires sp.p >= 1
  {
    BlockStart(sp, b) <= g < BlockStart(sp, b) + BlockSize(sp, b)
  }

  /** The shared edge block starts right after the six node components. */
  lemma BlockStarts(sp: TetSpace)
    requires sp.p >= 1
    ensures BlockStart(sp, SharedEdgeBlock) == 6 * sp.N
  {
  }

  lemma NodeEntryInBlock(sp: TetSpace, c: nat, i: nat, k: nat)
    requires Valid(sp) && c < sp.NC && i < sp.Ldof() && k < 6 && sp.flags.point[i]
    ensures InBlock(sp, NodeBlock, Entry(IntendedOffsets(sp), sp, c, i, k))
  {
    assert InScalarBlock(sp, i, sp.c2d[c][i]);
  }

  lemma SharedEdgeEntryInBlock(sp: TetSpace, c: nat, i: nat, k: nat)
    requires Valid(sp) && c < sp.NC && i < sp.Ldof() && 0 < k < 6 && sp.flags.edge[i]
    ensures InBlock(sp, SharedEdgeBlock, Entry(IntendedOffsets(sp), sp, c, i, k))
  {
    var s := sp.c2d[c][i];
    assert InScalarBlock(sp, i, s);
    BlockStarts(sp);
    assert Entry(IntendedOffsets(sp), sp, c, i, k) == 6 * sp.N + 5 * (s - sp.N) + (k - 1);
  }

  lemma SharedFaceEntryInBlock(sp: TetSpace, c: nat, i: nat, k: nat)
    requires Valid(sp) && c < sp.NC && i < sp.Ldof() && 3 <= k < 6 && sp.flags.face[i]
    ensures InBlock(sp, SharedFaceBlock, Entry(IntendedOffsets(sp), sp, c, i, k))
  {
    var s := sp.c2d[c][i];
    assert InScalarBlock(sp, i, s);
    BlockStarts(sp);
    assert Entry(IntendedOffsets(sp), sp, c, i, k)
           == BlockStart(sp, SharedFaceBlock) + 3 * (s - sp.EdgeEnd()) + (k - 3);
  }

  lemma InteriorEntryInBlock(sp: TetSpace, c: nat, i: nat, k: nat)
    requires Valid(sp) && c < sp.NC && i < sp.Ldof() && k < 6 && sp.flags.interior[i]
    ensures InBlock(sp, InteriorBlock, Entry(IntendedOffsets(sp), sp, c, i, k))
  {
    var s := sp.c2d[c][i];
    assert InScalarBlock(sp, i, s);
    BlockStarts(sp);
    assert Entry(IntendedOffsets(sp), sp, c, i, k)
           == BlockStart(sp, InteriorBlock) + 6 * (s - sp.FaceEnd()) + k;
  }

  lemma EdgeTangentialEntryInBlock(sp: TetSpace, c: nat, i: nat)
    requires Valid(sp) && c < sp.NC && i < sp.Ldof() && sp.flags.edge[i]
    ensures InBlock(sp, EdgeTangentialBlock, Entry(IntendedOffsets(sp), sp, c, i, 0))
  {
    var E := Count(sp.flags.edge);
    RankIndexesNonzero(sp.flags.edge, i);
    MulStep(c, sp.NC, E);
    BlockStarts(sp);
    assert Entry(IntendedOffsets(sp), sp, c, i, 0)
           == BlockStart(sp, EdgeTangentialBlock) + c * E + Rank(sp.flags.edge, i);
  }

  lemma FaceTangentialEntryInBlock(sp: TetSpace, c: nat, i: nat, k: nat)
    requires Valid(sp) && c < sp.NC && i < sp.Ldof() && k < 3 && sp.flags.face[i]
    ensures InBlock(sp, FaceTangentialBlock, Entry(IntendedOffsets(sp), sp, c, i, k))
  {
    var F := Count(sp.flags.face);
    RankIndexesNonzero(sp.flags.face, i);
    MulStep(c, sp.NC, F);
    BlockStarts(sp);
    assert Entry(IntendedOffsets(sp), sp, c, i, k)
           == BlockStart(sp, FaceTangentialBlock) + 3 * (c * F + Rank(sp.flags.face, i)) + k;
  }

  /** Every entry lies in the block of its (local DOF, component) slot. */
  lemma EntryInBlock(sp: TetSpace, c: nat, i: nat, k: nat)
    requires Valid(sp) && c < sp.NC && i < sp.Ldof() && k < 6
    ensures InBlock(sp, BlockOf(sp, i, k), Entry(IntendedOffsets(sp), sp, c, i, k))
  {
    if sp.flags.point[i] {
      NodeEntryInBlock(sp, c, i, k);
    } else if sp.flags.edge[i] {
      if k == 0 {
        EdgeTangentialEntryInBlock(sp, c, i);
      } else {
        SharedEdgeEntryInBlock(sp, c, i, k);
      }
    } else if sp.flags.face[i] {
      if k < 3 {
        FaceTangentialEntryInBlock(sp, c, i, k);
      } else {
        SharedFaceEntryInBlock(sp, c, i, k);
      }
    } else {
      InteriorEntryInBlock(sp, c, i, k);
    }
  }

  /** With the Lagrange class sizes the blocks together end exactly at
      `number_of_global_dofs()`. */
  lemma BlocksTileGlobalRange(sp: TetSpace)
    requires sp.p >= 1 && LagrangeCounts(sp)
    ensures BlockStart(sp, FaceTangentialBlock) + BlockSize(sp, FaceTangentialBlock)
            == NumberOfGlobalDofs(3, sp.p, sp.N, sp.NE, sp.NF, sp.NC)
  {
    BlockSizesRegrouped(EdgeDofs(sp.p), TriangleInteriorDofs(sp.p), TetrahedronInteriorDofs(sp.p),
                        sp.NE, sp.NF, sp.NC);
  }

  /** The block sizes with their products regrouped as in the closed form
      of the global count. */
  lemma BlockSizesRegrouped(e: nat, f: nat, t: nat, NE: nat, NF: nat, NC: nat)
    ensures NC * (6 * e) == 6 * e * NC
    ensures 3 * (NC * (4 * f)) == 12 * f * NC
    ensures 5 * (e * NE) == 5 * e * NE
    ensures 3 * (f * NF) == 3 * f * NF
    ensures 6 * (t * NC) == 6 * t * NC
  {
  }

  /** Blocks earlier in the pass order end before later ones start. */
  lemma BlocksOrdered(sp: TetSpace, b: Block, b': Block)
    requires sp.p >= 1 && Order(b) < Order(b')
    ensures BlockStart(sp, b) + BlockSize(sp, b) <= BlockStart(sp, b')
  {
  }

  /** Blocks are disjoint. */
  lemma BlocksDisjoint(sp: TetSpace, b: Block, b': Block, g: nat)
    requires sp.p >= 1 && InBlock(sp, b, g) && InBlock(sp, b', g)
    ensures b == b'
  {
    if Order(b) < Order(b') {
      BlocksOrdered(sp, b, b');
    } else if Order(b') < Order(b) {
      BlocksOrdered(sp, b', b);
    }
  }

  // ----- sharing -----

  /** What identifies a global DOF: a (scalar DOF, component) pair, or the
      (cell, local DOF position, component) that owns a fresh per-cell
      index. */
  datatype DofKey = Component(s: nat, k: nat) | EdgeTangential(c: nat, j: nat) | FaceTangential(c: nat, j: nat, k: nat)

  function Key(sp: TetSpace, c: nat, i: nat, k: nat): DofKey
    requires Valid(sp) && c < sp.NC && i < sp.Ldof()
  {
    if sp.flags.edge[i] && k == 0 then EdgeTangential(c, Rank(sp.flags.edge, i))
    else if sp.flags.face[i] && k < 3 then FaceTangential(c, Rank(sp.flags.face, i), k)
    else Component(sp.c2d[c][i], k)
  }

  /** The scalar DOF decides the class of every local DOF it sits at. */
  lemma ClassOfScalar(sp: TetSpace, c: nat, i: nat, c': nat, i': nat)
    requires Valid(sp) && c < sp.NC && i < sp.Ldof() && c' < sp.NC && i' < sp.Ldof()
    requires sp.c2d[c][i] == sp.c2d[c'][i']
    ensures sp.flags.point[i] == sp.flags.point[i']
    ensures sp.flags.edge[i] == sp.flags.edge[i']
    ensures sp.flags.face[i] == sp.flags.face[i']
    ensures sp.flags.interior[i] == sp.flags.interior[i']
  {
    assert InScalarBlock(sp, i, sp.c2d[c][i]);
    assert InScalarBlock(sp, i', sp.c2d[c'][i']);
    ScalarEndsOrdered(sp);
  }

  /** Equal keys give equal entries. */
  lemma SameKeySameEntry(sp: TetSpace, c: nat, i: nat, k: nat, c': nat, i': nat, k': nat)
    requires Valid(sp) && c < sp.NC && i < sp.Ldof() && k < 6
    requires c' < sp.NC && i' < sp.Ldof() && k' < 6
    requires Key(sp, c, i, k) == Key(sp, c', i', k')
    ensures Entry(IntendedOffsets(sp), sp, c, i, k) == Entry(IntendedOffsets(sp), sp, c', i', k')
  {
    if sp.flags.edge[i] && k == 0 {
      RankInjective(sp.flags.edge, i, i');
    } else if sp.flags.face[i] && k < 3 {
      RankInjective(sp.flags.face, i, i');
    } else {
      ClassOfScalar(sp, c, i, c', i');
    }
  }

  /** Within one block an index determines its key. */
  lemma SameBlockSameKey(sp: TetSpace, c: nat, i: nat, k: nat, c': nat, i': nat, k': nat)
    requires Valid(sp) && c < sp.NC && i < sp.Ldof() && k < 6
    requires c' < sp.NC && i' < sp.Ldof() && k' < 6
    requires BlockOf(sp, i, k) == BlockOf(sp, i', k')
    requires Entry(IntendedOffsets(sp), sp, c, i, k) == Entry(IntendedOffsets(sp), sp, c', i', k')
    ensures Key(sp, c, i, k) == Key(sp, c', i', k')
  {
    match BlockOf(sp, i, k)
    case NodeBlock => NodeBlockKey(sp, c, i, k, c', i', k');
    case SharedEdgeBlock => SharedEdgeBlockKey(sp, c, i, k, c', i', k');
    case SharedFaceBlock => SharedFaceBlockKey(sp, c, i, k, c', i', k');
    case InteriorBlock => InteriorBlockKey(sp, c, i, k, c', i', k');
    case EdgeTangentialBlock => EdgeTangentialBlockKey(sp, c, i, c', i');
    case FaceTangentialBlock => FaceTangentialBlockKey(sp, c, i, k, c', i', k');
  }

  lemma NodeBlockKey(sp: TetSpace, c: nat, i: nat, k: nat, c': nat, i': nat, k': nat)
    requires Valid(sp) && c < sp.NC && i < sp.Ldof() && k < 6 && c' < sp.NC && i' < sp.Ldof() && k' < 6
    requires sp.flags.point[i] && sp.flags.point[i']
    requires Entry(IntendedOffsets(sp), sp, c, i, k) == Entry(IntendedOffsets(sp), sp, c', i', k')
    ensures Key(sp, c, i, k) == Key(sp, c', i', k')
  {
    RowMajorUnique(sp.c2d[c][i], k, sp.c2d[c'][i'], k', 6);
  }

  lemma SharedEdgeBlockKey(sp: TetSpace, c: nat, i: nat, k: nat, c': nat, i': nat, k': nat)
    requires Valid(sp) && c < sp.NC && i < sp.Ldof() && 0 < k < 6 && c' < sp.NC && i' < sp.Ldof() && 0 < k' < 6
    requires sp.flags.edge[i] && sp.flags.edge[i']
    requires Entry(IntendedOffsets(sp), sp, c, i, k) == Entry(IntendedOffsets(sp), sp, c', i', k')
    ensures Key(sp, c, i, k) == Key(sp, c', i', k')
  {
    var s, s' := sp.c2d[c][i], sp.c2d[c'][i'];
    assert InScalarBlock(sp, i, s);
    assert InScalarBlock(sp, i', s');
    RowMajorUnique(s - sp.N, k - 1, s' - sp.N, k' - 1, 5);
  }

  lemma SharedFaceBlockKey(sp: TetSpace, c: nat, i: nat, k: nat, c': nat, i': nat, k': nat)
    requires Valid(sp) && c < sp.NC && i < sp.Ldof() && 3 <= k < 6 && c' < sp.NC && i' < sp.Ldof() && 3 <= k' < 6
    requires sp.flags.face[i] && sp.flags.face[i']
    requires Entry(IntendedOffsets(sp), sp, c, i, k) == Entry(IntendedOffsets(sp), sp, c', i', k')
    ensures Key(sp, c, i, k) == Key(sp, c', i', k')
  {
    var s, s' := sp.c2d[c][i], sp.c2d[c'][i'];
    assert InScalarBlock(sp, i, s);
    assert InScalarBlock(sp, i', s');
    RowMajorUnique(s - sp.EdgeEnd(), k - 3, s' - sp.EdgeEnd(), k' - 3, 3);
  }

  lemma InteriorBlockKey(sp: TetSpace, c: nat, i: nat, k: nat, c': nat, i': nat, k': nat)
    requires Valid(sp) && c < sp.NC && i < sp.Ldof() && k < 6 && c' < sp.NC && i' < sp.Ldof() && k' < 6
    requires sp.flags.interior[i] && sp.flags.interior[i']
    requires Entry(IntendedOffsets(sp), sp, c, i, k) == Entry(IntendedOffsets(sp), sp, c', i', k')
    ensures Key(sp, c, i, k) == Key(sp, c', i', k')
  {
    var s, s' := sp.c2d[c][i], sp.c2d[c'][i'];
    assert InScalarBlock(sp, i, s);
    assert InScalarBlock(sp, i', s');
    RowMajorUnique(s - sp.FaceEnd(), k, s' - sp.FaceEnd(), k', 6);
  }

  lemma EdgeTangentialBlockKey(sp: TetSpace, c: nat, i: nat, c': nat, i': nat)
    requires Valid(sp) && c < sp.NC && i < sp.Ldof() && c' < sp.NC && i' < sp.Ldof()
    requires sp.flags.edge[i] && sp.flags.edge[i']
    requires Entry(IntendedOffsets(sp), sp, c, i, 0) == Entry(IntendedOffsets(sp), sp, c', i', 0)
    ensures Key(sp, c, i, 0) == Key(sp, c', i', 0)
  {
    RankIndexesNonzero(sp.flags.edge, i);
    RankIndexesNonzero(sp.flags.edge, i');
    RowMajorUnique(c, Rank(sp.flags.edge, i), c', Rank(sp.flags.edge, i'), Count(sp.flags.edge));
  }

  lemma FaceTangentialBlockKey(sp: TetSpace, c: nat, i: nat, k: nat, c': nat, i': nat, k': nat)
    requires Valid(sp) && c < sp.NC && i < sp.Ldof() && k < 3 && c' < sp.NC && i' < sp.Ldof() && k' < 3
    requires sp.flags.face[i] && sp.flags.face[i']
    requires Entry(IntendedOffsets(sp), sp, c, i, k) == Entry(IntendedOffsets(sp), sp, c', i', k')
    ensures Key(sp, c, i, k) == Key(sp, c', i', k')
  {
    var F := Count(sp.flags.face);
    var r, r' := Rank(sp.flags.face, i), Rank(sp.flags.face, i');
    RankIndexesNonzero(sp.flags.face, i);
    RankIndexesNonzero(sp.flags.face, i');
    RowMajorUnique(Flat(c, F, r), k, Flat(c', F, r'), k', 3);
    RowMajorUnique(c, r, c', r', F);
  }

  /** Equal entries come from equal keys. */
  lemma SameEntrySameKey(sp: TetSpace, c: nat, i: nat, k: nat, c': nat, i': nat, k': nat)
    requires Valid(sp) && c < sp.NC && i < sp.Ldof() && k < 6
    requires c' < sp.NC && i' < sp.Ldof() && k' < 6
    requires Entry(IntendedOffsets(sp), sp, c, i, k) == Entry(IntendedOffsets(sp), sp, c', i', k')
    ensures Key(sp, c, i, k) == Key(sp, c', i', k')
  {
    EntryInBlock(sp, c, i, k);
    EntryInBlock(sp, c', i', k');
    BlocksDisjoint(sp, BlockOf(sp, i, k), BlockOf(sp, i', k'), Entry(IntendedOffsets(sp), sp, c, i, k));
    SameBlockSameKey(sp, c, i, k, c', i', k');
  }

  /** Two slots get the same global index exactly when they have the same
      key: point, shared-edge, shared-face and interior components are
      shared by every cell holding the same scalar DOF and nothing else,
      and each fresh per-cell index belongs to one slot of one cell. */
  lemma EntrySharedExactlyOnKey(sp: TetSpace, c: nat, i: nat, k: nat, c': nat, i': nat, k': nat)
    requires Valid(sp) && c < sp.NC && i < sp.Ldof() && k < 6
    requires c' < sp.NC && i' < sp.Ldof() && k' < 6
    ensures Entry(IntendedOffsets(sp), sp, c, i, k) == Entry(IntendedOffsets(sp), sp, c', i', k')
            <==> Key(sp, c, i, k) == Key(sp, c', i', k')
  {
    if Key(sp, c, i, k) == Key(sp, c', i', k') {
      SameKeySameEntry(sp, c, i, k, c', i', k');
    }
    if Entry(IntendedOffsets(sp), sp, c, i, k) == Entry(IntendedOffsets(sp), sp, c', i', k') {
      SameEntrySameKey(sp, c, i, k, c', i', k');
    }
  }

  /** Two different cells that hold the same scalar edge-interior DOF see
      the same indices for components 1 to 5 and different ones for the
      tangential component 0. */
  lemma SharedEdgeComponents(sp: TetSpace, c: nat, i: nat, c': nat, i': nat)
    requires Valid(sp) && c < sp.NC && i < sp.Ldof() && c' < sp.NC && i' < sp.Ldof()
    requires sp.flags.edge[i] && sp.c2d[c][i] == sp.c2d[c'][i'] && c != c'
    ensures forall k :: 1 <= k < 6 ==>
              Entry(IntendedOffsets(sp), sp, c, i, k) == Entry(IntendedOffsets(sp), sp, c', i', k)
    ensures Entry(IntendedOffsets(sp), sp, c, i, 0) != Entry(IntendedOffsets(sp), sp, c', i', 0)
  {
    ClassOfScalar(sp, c, i, c', i');
    forall k | 1 <= k < 6
      ensures Entry(IntendedOffsets(sp), sp, c, i, k) == Entry(IntendedOffsets(sp), sp, c', i', k)
    {
      EntrySharedExactlyOnKey(sp, c, i, k, c', i', k);
    }
    EntrySharedExactlyOnKey(sp, c, i, 0, c', i', 0);
  }

  /** Two different cells that hold the same scalar face-interior DOF see
      the same indices for components 3 to 5 and different ones for each
      of the components 0 to 2. */
  lemma SharedFaceComponents(sp: TetSpace, c: nat, i: nat, c': nat, i': nat)
    requires Valid(sp) && c < sp.NC && i < sp.Ldof() && c' < sp.NC && i' < sp.Ldof()
    requires sp.flags.face[i] && sp.c2d[c][i] == sp.c2d[c'][i'] && c != c'
    ensures forall k :: 3 <= k < 6 ==>
              Entry(IntendedOffsets(sp), sp, c, i, k) == Entry(IntendedOffsets(sp), sp, c', i', k)
    ensures forall k :: 0 <= k < 3 ==>
              Entry(IntendedOffsets(sp), sp, c, i, k) != Entry(IntendedOffsets(sp), sp, c', i', k)
  {
    ClassOfScalar(sp, c, i, c', i');
    forall k | 0 <= k < 6
      ensures Entry(IntendedOffsets(sp), sp, c, i, k) == Entry(IntendedOffsets(sp), sp, c', i', k) <==> k >= 3
    {
      EntrySharedExactlyOnKey(sp, c, i, k, c', i', k);
    }
  }

  // ----- every index is used -----

  /** Every scalar DOF occurs in some cell, as in any Lagrange space. */
  predicate EveryScalarDofOccurs(sp: TetSpace)
    requires sp.p >= 1
  {
    forall s :: 0 <= s < sp.ScalarEnd() ==> Occurs(sp, s)
  }

  /** Some slot of the intended map holds index `g`. */
  predicate Written(sp: TetSpace, g: nat)
    requires Valid(sp)
  {
    exists c, i, k :: 0 <= c < sp.NC && 0 <= i < sp.Ldof() && 0 <= k < 6
      && Entry(IntendedOffsets(sp), sp, c, i, k) == g
  }

  /** The scalar blocks follow one another. */
  lemma ScalarEndsOrdered(sp: TetSpace)
    requires sp.p >= 1
    ensures sp.N <= sp.EdgeEnd() <= sp.FaceEnd() <= sp.ScalarEnd()
  {
  }

  /** A scalar DOF below `N` is a node DOF, and its components are
      numbered `6*s + k`. */
  lemma NodeEntry(sp: TetSpace, c: nat, i: nat, k: nat)
    requires Valid(sp) && c < sp.NC && i < sp.Ldof() && k < 6 && sp.c2d[c][i] < sp.N
    ensures Entry(IntendedOffsets(sp), sp, c, i, k) == 6 * sp.c2d[c][i] + k
  {
    assert InScalarBlock(sp, i, sp.c2d[c][i]);
    ScalarEndsOrdered(sp);
  }

  lemma NodeIndexWritten(sp: TetSpace, g: nat)
    requires Valid(sp) && EveryScalarDofOccurs(sp) && g < 6 * sp.N
    ensures Written(sp, g)
  {
    var s, k := RowMajorSplit(g, sp.N, 6);
    ScalarEndsOrdered(sp);
    assert Occurs(sp, s);
    var c, i :| 0 <= c < |sp.c2d| && 0 <= i < |sp.c2d[c]| && sp.c2d[c][i] == s;
    NodeEntry(sp, c, i, k);
  }

  /** A scalar DOF in the edge block is an edge-interior DOF; its shared
      components `k = 1..5` are numbered `6N + 5(s - N) + k - 1`. */
  lemma SharedEdgeEntry(sp: TetSpace, c: nat, i: nat, k: nat)
    requires Valid(sp) && c < sp.NC && i < sp.Ldof() && 0 < k < 6
    requires sp.N <= sp.c2d[c][i] < sp.EdgeEnd()
    ensures Entry(IntendedOffsets(sp), sp, c, i, k) == 6 * sp.N + 5 * (sp.c2d[c][i] - sp.N) + (k - 1)
  {
    assert InScalarBlock(sp, i, sp.c2d[c][i]);
    ScalarEndsOrdered(sp);
  }

  /** A scalar DOF in the face block is a face-interior DOF; its shared
      components `k = 3..5` follow the shared edge block. */
  lemma SharedFaceEntry(sp: TetSpace, c: nat, i: nat, k: nat)
    requires Valid(sp) && c < sp.NC && i < sp.Ldof() && 3 <= k < 6
    requires sp.EdgeEnd() <= sp.c2d[c][i] < sp.FaceEnd()
    ensures Entry(IntendedOffsets(sp), sp, c, i, k)
            == IntendedOffsets(sp).faceTensor + 3 * (sp.c2d[c][i] - sp.EdgeEnd()) + (k - 3)
  {
    assert InScalarBlock(sp, i, sp.c2d[c][i]);
    ScalarEndsOrdered(sp);
  }

  /** A scalar DOF in the cell block is a cell-interior DOF; all six
      components follow the shared face block. */
  lemma InteriorEntry(sp: TetSpace, c: nat, i: nat, k: nat)
    requires Valid(sp) && c < sp.NC && i < sp.Ldof() && k < 6
    requires sp.FaceEnd() <= sp.c2d[c][i] < sp.ScalarEnd()
    ensures Entry(IntendedOffsets(sp), sp, c, i, k)
            == IntendedOffsets(sp).interiorTensor + 6 * (sp.c2d[c][i] - sp.FaceEnd()) + k
  {
    assert InScalarBlock(sp, i, sp.c2d[c][i]);
    ScalarEndsOrdered(sp);
  }

  lemma SharedEdgeIndexWritten(sp: TetSpace, g: nat)
    requires Valid(sp) && EveryScalarDofOccurs(sp) && InBlock(sp, SharedEdgeBlock, g)
    ensures Written(sp, g)
  {
    BlockStarts(sp);
    ScalarEndsOrdered(sp);
    var d := g - 6 * sp.N;
    var q, r := RowMajorSplit(d, EdgeDofs(sp.p) * sp.NE, 5);
    var s, k := sp.N + q, r + 1;
    assert Occurs(sp, s);
    var c, i :| 0 <= c < |sp.c2d| && 0 <= i < |sp.c2d[c]| && sp.c2d[c][i] == s;
    SharedEdgeEntry(sp, c, i, k);
  }

  lemma SharedFaceIndexWritten(sp: TetSpace, g: nat)
    requires Valid(sp) && EveryScalarDofOccurs(sp) && InBlock(sp, SharedFaceBlock, g)
    ensures Written(sp, g)
  {
    BlockStarts(sp);
    ScalarEndsOrdered(sp);
    var d := g - BlockStart(sp, SharedFaceBlock);
    var q, r := RowMajorSplit(d, TriangleInteriorDofs(sp.p) * sp.NF, 3);
    var s, k := sp.EdgeEnd() + q, r + 3;
    assert Occurs(sp, s);
    var c, i :| 0 <= c < |sp.c2d| && 0 <= i < |sp.c2d[c]| && sp.c2d[c][i] == s;
    SharedFaceEntry(sp, c, i, k);
  }

  lemma InteriorIndexWritten(sp: TetSpace, g: nat)
    requires Valid(sp) && EveryScalarDofOccurs(sp) && InBlock(sp, InteriorBlock, g)
    ensures Written(sp, g)
  {
    BlockStarts(sp);
    ScalarEndsOrdered(sp);
    var d := g - BlockStart(sp, InteriorBlock);
    var q, k := RowMajorSplit(d, TetrahedronInteriorDofs(sp.p) * sp.NC, 6);
    var s := sp.FaceEnd() + q;
    assert Occurs(sp, s);
    var c, i :| 0 <= c < |sp.c2d| && 0 <= i < |sp.c2d[c]| && sp.c2d[c][i] == s;
    InteriorEntry(sp, c, i, k);
  }

  lemma EdgeTangentialIndexWritten(sp: TetSpace, g: nat)
    requires Valid(sp) && InBlock(sp, EdgeTangentialBlock, g)
    ensures Written(sp, g)
  {
    BlockStarts(sp);
    var E := Count(sp.flags.edge);
    var d := g - BlockStart(sp, EdgeTangentialBlock);
    var c, j := RowMajorSplit(d, sp.NC, E);
    RankSurjective(sp.flags.edge, j);
    var i :| 0 <= i < sp.Ldof() && sp.flags.edge[i] && Rank(sp.flags.edge, i) == j;
    assert Entry(IntendedOffsets(sp), sp, c, i, 0) == g;
  }

  lemma FaceTangentialIndexWritten(sp: TetSpace, g: nat)
    requires Valid(sp) && InBlock(sp, FaceTangentialBlock, g)
    ensures Written(sp, g)
  {
    BlockStarts(sp);
    var F := Count(sp.flags.face);
    var d := g - BlockStart(sp, FaceTangentialBlock);
    var q, k := RowMajorSplit(d, sp.NC * F, 3);
    var c, j := RowMajorSplit(q, sp.NC, F);
    RankSurjective(sp.flags.face, j);
    var i :| 0 <= i < sp.Ldof() && sp.flags.face[i] && Rank(sp.flags.face, i) == j;
    assert Entry(IntendedOffsets(sp), sp, c, i, k) == g;
  }

  /** When every scalar DOF occurs in some cell, every index below
      `number_of_global_dofs()` is written by some slot of the map, so the
      count is exactly the number of distinct indices. */
  lemma EveryIndexWritten(sp: TetSpace, g: nat)
    requires Valid(sp) && LagrangeCounts(sp) && EveryScalarDofOccurs(sp)
    requires g < NumberOfGlobalDofs(3, sp.p, sp.N, sp.NE, sp.NF, sp.NC)
    ensures Written(sp, g)
  {
    BlocksTileGlobalRange(sp);
    if g < BlockStart(sp, SharedEdgeBlock) {
      NodeIndexWritten(sp, g);
    } else if g < BlockStart(sp, SharedFaceBlock) {
      SharedEdgeIndexWritten(sp, g);
    } else if g < BlockStart(sp, InteriorBlock) {
      SharedFaceIndexWritten(sp, g);
    } else if g < BlockStart(sp, EdgeTangentialBlock) {
      InteriorIndexWritten(sp, g);
    } else if g < BlockStart(sp, FaceTangentialBlock) {
      EdgeTangentialIndexWritten(sp, g);
    } else {
      FaceTangentialIndexWritten(sp, g);
    }
  }

  // ----- the map as written -----

  /** Below degree 3 a tetrahedron has no face-interior DOFs, so the
      `init_cell_to_dof` never binds `edof` and builds no map, although
      `number_of_global_dofs()` counts DOFs for every degree. */
  lemma AsWrittenFailsBelowDegreeThree(sp: TetSpace)
    requires Valid(sp) && LagrangeCounts(sp) && sp.p < 3
    ensures CellToDofAsWritten(sp).None?
    ensures NumberOfGlobalDofs(3, sp.p, sp.N, sp.NE, sp.NF, sp.NC) >= 6 * sp.N
  {
  }

  /** From degree 4 on every class is present, the offsets as written are
      the intended ones, and the map `init_cell_to_dof` builds is the intended map. */
  lemma AsWrittenAgreesFromDegreeFour(sp: TetSpace)
    requires Valid(sp) && LagrangeCounts(sp) && sp.p >= 4
    ensures CellToDofAsWritten(sp) == Some(CellToDof(sp))
  {
    var p := sp.p;
    TriangleInteriorPositive(p);
    TetrahedronInteriorPositive(p);
    BlockSizesRegrouped(EdgeDofs(p), TriangleInteriorDofs(p), TetrahedronInteriorDofs(p), sp.NE, sp.NF, sp.NC);
    assert WrittenOffsets(sp) == Some(IntendedOffsets(sp));
  }

  /** At degree 3 there are no cell-interior DOFs, so `init_cell_to_dof` never
      adds the shared face block to `base1`: its edge tangential block
      starts where the shared face block starts instead of after it. */
  lemma AsWrittenTangentialOverlapsAtDegreeThree(sp: TetSpace)
    requires Valid(sp) && LagrangeCounts(sp) && sp.p == 3 && sp.NF > 0
    ensures WrittenOffsets(sp).Some?
    ensures WrittenOffsets(sp).value.edgeTangential == BlockStart(sp, SharedFaceBlock)
    ensures InBlock(sp, SharedFaceBlock, WrittenOffsets(sp).value.edgeTangential)
    ensures WrittenOffsets(sp).value.edgeTangential < IntendedOffsets(sp).edgeTangential
  {
    BlockStarts(sp);
  }

  /** At degree 3 `init_cell_to_dof` starts the edge tangential block at the
      start of the shared face block, and the shared face components of
      scalar DOF `EdgeEnd()` at that same index. */
  lemma DegreeThreeOffsets(sp: TetSpace)
    requires Valid(sp) && LagrangeCounts(sp) && sp.p == 3
    ensures WrittenOffsets(sp).Some?
    ensures WrittenOffsets(sp).value.edgeTangential == WrittenOffsets(sp).value.faceTensor
    ensures WrittenOffsets(sp).value.faceScalar == sp.EdgeEnd()
  {
  }

  /** The two slots of the collision: component 0 of the edge DOF of rank
      0 in cell 0, and component 3 of the first scalar face-interior DOF. */
  lemma DegreeThreeCollidingEntries(sp: TetSpace, i: nat, c': nat, i': nat)
    requires Valid(sp) && LagrangeCounts(sp) && sp.p == 3 && sp.NC > 0
    requires i < sp.Ldof() && sp.flags.edge[i] && Rank(sp.flags.edge, i) == 0
    requires c' < sp.NC && i' < sp.Ldof() && sp.c2d[c'][i'] == sp.EdgeEnd() && sp.flags.face[i']
    ensures WrittenOffsets(sp).Some?
    ensures Entry(WrittenOffsets(sp).value, sp, 0, i, 0) == Entry(WrittenOffsets(sp).value, sp, c', i', 3)
    ensures Key(sp, 0, i, 0) != Key(sp, c', i', 3)
  {
    DegreeThreeOffsets(sp);
  }

  /** Two slots with different keys that the map as written gives the same
      index. */
  predicate WrittenCollision(sp: TetSpace, c: nat, i: nat, k: nat, c': nat, i': nat, k': nat)
    requires Valid(sp) && sp.Ldof() == ScalarLocalDofs(3, sp.p) && Count(sp.flags.face) > 0
  {
    && c < sp.NC && i < sp.Ldof() && k < 6 && c' < sp.NC && i' < sp.Ldof() && k' < 6
    && Key(sp, c, i, k) != Key(sp, c', i', k')
    && CellToDofAsWritten(sp).value[c][6 * i + k] == CellToDofAsWritten(sp).value[c'][6 * i' + k']
  }

  /** On every degree-3 mesh with a face and a cell the map as written gives
      one index to two slots with different keys: component 0 of the first
      edge-interior DOF of cell 0 and component 3 of the first scalar
      face-interior DOF. */
  lemma DegreeThreeCollision(sp: TetSpace)
    requires Valid(sp) && LagrangeCounts(sp) && EveryScalarDofOccurs(sp)
    requires sp.p == 3 && sp.NF > 0 && sp.NC > 0
    ensures CellToDofAsWritten(sp).Some?
    ensures exists c, i, k, c', i', k' :: WrittenCollision(sp, c, i, k, c', i', k')
  {
    var c', i' := FirstFaceDofOccurs(sp);
    RankSurjective(sp.flags.edge, 0);
    var i :| 0 <= i < sp.Ldof() && sp.flags.edge[i] && Rank(sp.flags.edge, i) == 0;
    DegreeThreeCollidingEntries(sp, i, c', i');
    var t := CellToDofAsWritten(sp).value;
    assert t[0][6 * i + 0] == t[c'][6 * i' + 3];
    assert WrittenCollision(sp, 0, i, 0, c', i', 3);
  }

  /** At degree 3 on a mesh with a face, the first scalar face-interior DOF
      sits at a face-interior local DOF of some cell. */
  lemma FirstFaceDofOccurs(sp: TetSpace) returns (c: nat, i: nat)
    requires Valid(sp) && LagrangeCounts(sp) && EveryScalarDofOccurs(sp)
    requires sp.p == 3 && sp.NF > 0
    ensures c < sp.NC && i < sp.Ldof() && sp.c2d[c][i] == sp.EdgeEnd() && sp.flags.face[i]
    ensures Count(sp.flags.edge) > 0
  {
    TriangleInteriorPositive(3);
    ScalarEndsOrdered(sp);
    var s := sp.EdgeEnd();
    assert s < sp.FaceEnd();
    assert Occurs(sp, s);
    c, i :| 0 <= c < |sp.c2d| && 0 <= i < |sp.c2d[c]| && sp.c2d[c][i] == s;
    assert InScalarBlock(sp, i, s);
  }
}
