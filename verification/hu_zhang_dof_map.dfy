/** The global DOF map of the Hu-Zhang space on a triangle mesh
    (`init_cell_to_dof` with `dim == 2`).

    Every local scalar DOF `i` of cell `c` carries `tdim = 3` tensor
    components `k`. The map numbers them in four consecutive blocks:
    point DOFs (`3*s + k`), the shared components `k = 1, 2` of
    edge-interior DOFs, the cell-interior DOFs (all three components), and
    finally one fresh index per cell for component 0 of every local
    edge-interior DOF, which makes that component discontinuous across
    edges. The result is reshaped to one row of `3*ldof` entries per cell,
    slot `3*i + k`. */
module HuZhangDofMap {
  import opened Masks
  import opened HuZhangLayout
  import opened RowMajor

  /** What the mesh and the scalar Lagrange space of degree `p` supply:
      node, edge and cell counts, the scalar cell-to-DOF map `c2d` and the
      DOF classes of `dof_flags_1`. */
  datatype ScalarSpace = ScalarSpace(p: nat, N: nat, NE: nat, NC: nat,
                                     c2d: seq<seq<nat>>, flags: LocalDofFlags)
  {
    function Ldof(): nat {
      |flags.point|
    }
    /** Scalar DOFs of the node block and the edge block together. */
    function EdgeEnd(): nat
      requires p >= 1
    {
      N + EdgeDofs(p) * NE
    }
    /** Number of scalar DOFs. */
    function ScalarEnd(): nat
      requires p >= 1
    {
      EdgeEnd() + TriangleInteriorDofs(p) * NC
    }
  }

  /** The scalar DOF `s` at local DOF `i` lies in the block of its class:
      node DOFs below `N`, edge-interior DOFs in the next `(p-1)*NE`,
      cell-interior DOFs in the `cdof*NC` after that. */
  predicate InScalarBlock(sp: ScalarSpace, i: nat, s: nat)
    requires sp.p >= 1 && i < |sp.flags.point| && Partition(sp.flags)
  {
    && (sp.flags.point[i] ==> s < sp.N)
    && (sp.flags.edge[i] ==> sp.N <= s < sp.EdgeEnd())
    && (sp.flags.interior[i] ==> sp.EdgeEnd() <= s < sp.ScalarEnd())
  }

  /** The layout of the scalar space that the tensor numbering relies on. */
  predicate Valid(sp: ScalarSpace) {
    && sp.p >= 1
    && Partition(sp.flags)
    && (forall i :: 0 <= i < |sp.flags.face| ==> !sp.flags.face[i])
    && |sp.c2d| == sp.NC
    && (forall c :: 0 <= c < |sp.c2d| ==> |sp.c2d[c]| == sp.Ldof())
    && (forall c, i :: 0 <= c < |sp.c2d| && 0 <= i < |sp.c2d[c]| ==> InScalarBlock(sp, i, sp.c2d[c][i]))
  }

  /** The local class sizes of the degree-`p` Lagrange space on a triangle:
      3 vertex DOFs, `p-1` per edge, and the interior ones. */
  predicate LagrangeCounts(sp: ScalarSpace)
    requires sp.p >= 1
  {
    && Count(sp.flags.point) == 3
    && Count(sp.flags.edge) == 3 * EdgeDofs(sp.p)
    && Count(sp.flags.interior) == TriangleInteriorDofs(sp.p)
  }

  /** Scalar DOF `s` occurs in some cell. */
  predicate Occurs(sp: ScalarSpace, s: nat) {
    exists c, i :: 0 <= c < |sp.c2d| && 0 <= i < |sp.c2d[c]| && sp.c2d[c][i] == s
  }

  /** Start offsets of the blocks whose position depends on which classes
      are present: the scalar and tensor start of the cell-interior block,
      and the start of the per-cell tangential block. */
  datatype Offsets = Offsets(interiorScalar: nat, interiorTensor: nat, tangential: nat)

  /** The offsets of the block layout the numbering is designed for: the
      cell-interior scalar DOFs follow the node and edge scalar blocks, and
      the interior and tangential tensor offsets are the starts of their
      blocks in the pass order node, shared edge, interior, tangential. */
  function IntendedOffsets(sp: ScalarSpace): (o: Offsets)
    requires sp.p >= 1
    ensures o.interiorScalar == sp.EdgeEnd()
    ensures o.interiorTensor == BlockStart(sp, InteriorBlock)
    ensures o.tangential == BlockStart(sp, TangentialBlock)
  {
    var edgeScalars: nat := EdgeDofs(sp.p) * sp.NE;
    var cellScalars: nat := TriangleInteriorDofs(sp.p) * sp.NC;
    Offsets(sp.EdgeEnd(), 3 * sp.N + 2 * edgeScalars, 3 * sp.N + 2 * edgeScalars + 3 * cellScalars)
  }

  /** The offsets as `init_cell_to_dof` accumulates them in `base0` and
      `base1`: the node block is skipped past only when edge-interior DOFs
      exist, and the shared edge block only when cell-interior DOFs
      exist. */
  function WrittenOffsets(sp: ScalarSpace): (o: Offsets)
    requires sp.p >= 1
    ensures o.interiorScalar <= sp.EdgeEnd()
    ensures Count(sp.flags.edge) > 0 && Count(sp.flags.interior) > 0 ==> o == IntendedOffsets(sp)
    ensures Count(sp.flags.interior) == 0 ==> o.interiorTensor == (if Count(sp.flags.edge) > 0 then 3 * sp.N else 0)
  {
    var hasEdge := Count(sp.flags.edge) > 0;
    var hasInterior := Count(sp.flags.interior) > 0;
    var edof: nat := sp.p - 1;
    var cdof := SourceFaceDofs(sp.p);
    var edgeScalars: nat := edof * sp.NE;
    var cellScalars: nat := cdof * sp.NC;
    var base0 := if hasEdge then sp.N else 0;
    var base1 := if hasEdge then 3 * sp.N else 0;
    var base0' := if hasInterior then base0 + edgeScalars else base0;
    var base1' := if hasInterior then base1 + (3 - 1) * edgeScalars else base1;
    Offsets(base0', base1', base1' + 3 * cellScalars)
  }

  /** Global index of component `k` of local scalar DOF `i` in cell `c`.
      Whatever the offsets, node components stay below `3N`, shared edge
      components fill the two slots per edge scalar DOF after them, and
      tangential and interior components lie in the ranges that start at
      their offsets. */
  function Entry(o: Offsets, sp: ScalarSpace, c: nat, i: nat, k: nat): (r: nat)
    requires Valid(sp) && c < sp.NC && i < sp.Ldof() && k < 3
    requires o.interiorScalar <= sp.EdgeEnd()
    ensures sp.flags.point[i] ==> r < 3 * sp.N
    ensures sp.flags.edge[i] && k > 0 ==> 3 * sp.N <= r < 3 * sp.N + 2 * (sp.EdgeEnd() - sp.N)
    ensures sp.flags.edge[i] && k == 0 ==> o.tangential <= r < o.tangential + sp.NC * Count(sp.flags.edge)
    ensures sp.flags.interior[i] ==>
              o.interiorTensor <= r < o.interiorTensor + 3 * (sp.ScalarEnd() - o.interiorScalar)
  {
    var s := sp.c2d[c][i];
    assert InScalarBlock(sp, i, s);
    if sp.flags.point[i] then 3 * s + k
    else if sp.flags.edge[i] then
      if k == 0 then
        RankIndexesNonzero(sp.flags.edge, i);
        MulStep(c, sp.NC, Count(sp.flags.edge));
        o.tangential + Flat(c, Count(sp.flags.edge), Rank(sp.flags.edge, i))
      else 3 * sp.N + 2 * (s - sp.N) + (k - 1)
    else o.interiorTensor + 3 * (s - o.interiorScalar) + k
  }

  /** The entry of slot `m` of row `c`: component `m % 3` of local DOF
      `m / 3`. */
  function SlotEntry(o: Offsets, sp: ScalarSpace, c: nat, m: nat): (r: nat)
    requires Valid(sp) && o.interiorScalar <= sp.EdgeEnd() && c < sp.NC && m < 3 * sp.Ldof()
    ensures forall i, k :: 0 <= i < sp.Ldof() && 0 <= k < 3 && m == 3 * i + k ==> r == Entry(o, sp, c, i, k)
  {
    Entry(o, sp, c, m / 3, m % 3)
  }

  /** The reshaped map: row `c` holds component `k` of local DOF `i` at
      slot `3*i + k`. */
  function Table(o: Offsets, sp: ScalarSpace): (t: seq<seq<nat>>)
    requires Valid(sp) && o.interiorScalar <= sp.EdgeEnd()
    ensures |t| == sp.NC
    ensures forall c :: 0 <= c < sp.NC ==> |t[c]| == 3 * sp.Ldof() == NumberOfLocalDofs(2, sp.Ldof())
    ensures forall c, i, k :: 0 <= c < sp.NC && 0 <= i < sp.Ldof() && 0 <= k < 3 ==>
              t[c][3 * i + k] == Entry(o, sp, c, i, k)
  {
    seq(sp.NC, c requires 0 <= c < sp.NC =>
      seq(3 * sp.Ldof(), m requires 0 <= m < 3 * sp.Ldof() => SlotEntry(o, sp, c, m)))
  }

  /** `init_cell_to_dof` with the block offsets it is designed for. */
  function CellToDof(sp: ScalarSpace): (t: seq<seq<nat>>)
    requires Valid(sp)
    ensures |t| == sp.NC
    ensures forall c :: 0 <= c < sp.NC ==> |t[c]| == NumberOfLocalDofs(2, sp.Ldof())
    ensures Count(sp.flags.edge) == 3 * EdgeDofs(sp.p) ==>
              forall c, m :: 0 <= c < sp.NC && 0 <= m < |t[c]| ==>
                t[c][m] < NumberOfGlobalDofs(2, sp.p, sp.N, sp.NE, 0, sp.NC)
  {
    IntendedEntriesBelowGlobalCount(sp);
    Table(IntendedOffsets(sp), sp)
  }

  lemma IntendedEntriesBelowGlobalCount(sp: ScalarSpace)
    requires Valid(sp)
    ensures Count(sp.flags.edge) == 3 * EdgeDofs(sp.p) ==>
              forall c, m :: 0 <= c < sp.NC && 0 <= m < 3 * sp.Ldof() ==>
                Table(IntendedOffsets(sp), sp)[c][m] < NumberOfGlobalDofs(2, sp.p, sp.N, sp.NE, 0, sp.NC)
  {
    if Count(sp.flags.edge) == 3 * EdgeDofs(sp.p) {
      BlocksTileGlobalRange(sp);
      var G := NumberOfGlobalDofs(2, sp.p, sp.N, sp.NE, 0, sp.NC);
      forall c | 0 <= c < sp.NC
        ensures forall m :: 0 <= m < 3 * sp.Ldof() ==> Table(IntendedOffsets(sp), sp)[c][m] < G
      {
        forall i, k | 0 <= i < sp.Ldof() && 0 <= k < 3
          ensures Entry(IntendedOffsets(sp), sp, c, i, k) < G
        {
          EntryInBlock(sp, c, i, k);
        }
        RowBelow(IntendedOffsets(sp), sp, c, G);
      }
    }
  }

  /** `init_cell_to_dof` as written (`mixed_fem_space.py`, lines 130-165). */
  function CellToDofAsWritten(sp: ScalarSpace): (t: seq<seq<nat>>)
    requires Valid(sp)
    ensures |t| == sp.NC
    ensures forall c :: 0 <= c < sp.NC ==> |t[c]| == NumberOfLocalDofs(2, sp.Ldof())
  {
    Table(WrittenOffsets(sp), sp)
  }

  /** A bound on the entries of every slot of row `c` bounds the row. */
  lemma RowBelow(o: Offsets, sp: ScalarSpace, c: nat, bound: nat)
    requires Valid(sp) && o.interiorScalar <= sp.EdgeEnd() && c < sp.NC
    requires forall i, k :: 0 <= i < sp.Ldof() && 0 <= k < 3 ==> Entry(o, sp, c, i, k) < bound
    ensures forall m :: 0 <= m < 3 * sp.Ldof() ==> Table(o, sp)[c][m] < bound
  {
    forall m | 0 <= m < 3 * sp.Ldof()
      ensures Table(o, sp)[c][m] < bound
    {
      var i, k := RowMajorSplit(m, sp.Ldof(), 3);
      assert Table(o, sp)[c][3 * i + k] == Entry(o, sp, c, i, k);
    }
  }

  // ----- the four index blocks -----

  datatype Block = NodeBlock | SharedEdgeBlock | InteriorBlock | TangentialBlock

  /** The block component `k` of local DOF `i` is numbered in. */
  function BlockOf(sp: ScalarSpace, i: nat, k: nat): Block
    requires i < |sp.flags.point| && Partition(sp.flags)
  {
    if sp.flags.point[i] then NodeBlock
    else if sp.flags.edge[i] then (if k == 0 then TangentialBlock else SharedEdgeBlock)
    else InteriorBlock
  }

  function BlockSize(sp: ScalarSpace, b: Block): nat
    requires sp.p >= 1
  {
    match b
    case NodeBlock => 3 * sp.N
    case SharedEdgeBlock => 2 * (EdgeDofs(sp.p) * sp.NE)
    case InteriorBlock => 3 * (TriangleInteriorDofs(sp.p) * sp.NC)
    case TangentialBlock => sp.NC * Count(sp.flags.edge)
  }

  /** First index of a block: the blocks are laid out in the pass order
      node, shared edge, interior, tangential. */
  function BlockStart(sp: ScalarSpace, b: Block): nat
    requires sp.p >= 1
  {
    match b
    case NodeBlock => 0
    case SharedEdgeBlock => BlockSize(sp, NodeBlock)
    case InteriorBlock => BlockSize(sp, NodeBlock) + BlockSize(sp, SharedEdgeBlock)
    case TangentialBlock =>
      BlockSize(sp, NodeBlock) + BlockSize(sp, SharedEdgeBlock) + BlockSize(sp, InteriorBlock)
  }

  predicate InBlock(sp: ScalarSpace, b: Block, g: nat)
    requires sp.p >= 1
  {
    BlockStart(sp, b) <= g < BlockStart(sp, b) + BlockSize(sp, b)
  }

  /** The block starts written with the products named. */
  lemma BlockStarts(sp: ScalarSpace)
    requires sp.p >= 1
    ensures BlockStart(sp, SharedEdgeBlock) == 3 * sp.N
    ensures BlockSize(sp, SharedEdgeBlock) == 2 * (EdgeDofs(sp.p) * sp.NE)
    ensures BlockStart(sp, InteriorBlock) == 3 * sp.N + 2 * (EdgeDofs(sp.p) * sp.NE)
    ensures BlockSize(sp, InteriorBlock) == 3 * (TriangleInteriorDofs(sp.p) * sp.NC)
    ensures BlockStart(sp, TangentialBlock) == IntendedOffsets(sp).tangential
            == 3 * sp.N + 2 * (EdgeDofs(sp.p) * sp.NE) + 3 * (TriangleInteriorDofs(sp.p) * sp.NC)
    ensures IntendedOffsets(sp).interiorTensor == BlockStart(sp, InteriorBlock)
  {
  }

  lemma NodeEntryInBlock(sp: ScalarSpace, c: nat, i: nat, k: nat)
    requires Valid(sp) && c < sp.NC && i < sp.Ldof() && k < 3 && sp.flags.point[i]
    ensures InBlock(sp, NodeBlock, Entry(IntendedOffsets(sp), sp, c, i, k))
  {
    assert InScalarBlock(sp, i, sp.c2d[c][i]);
  }

  lemma SharedEdgeEntryInBlock(sp: ScalarSpace, c: nat, i: nat, k: nat)
    requires Valid(sp) && c < sp.NC && i < sp.Ldof() && 0 < k < 3 && sp.flags.edge[i]
    ensures InBlock(sp, SharedEdgeBlock, Entry(IntendedOffsets(sp), sp, c, i, k))
  {
    var s := sp.c2d[c][i];
    assert InScalarBlock(sp, i, s);
    BlockStarts(sp);
    assert Entry(IntendedOffsets(sp), sp, c, i, k) == 3 * sp.N + 2 * (s - sp.N) + (k - 1);
  }

  lemma InteriorEntryInBlock(sp: ScalarSpace, c: nat, i: nat, k: nat)
    requires Valid(sp) && c < sp.NC && i < sp.Ldof() && k < 3 && sp.flags.interior[i]
    ensures InBlock(sp, InteriorBlock, Entry(IntendedOffsets(sp), sp, c, i, k))
  {
    var s := sp.c2d[c][i];
    assert InScalarBlock(sp, i, s);
    BlockStarts(sp);
    assert Entry(IntendedOffsets(sp), sp, c, i, k)
           == BlockStart(sp, InteriorBlock) + 3 * (s - sp.EdgeEnd()) + k;
  }

  lemma TangentialEntryInBlock(sp: ScalarSpace, c: nat, i: nat)
    requires Valid(sp) && c < sp.NC && i < sp.Ldof() && sp.flags.edge[i]
    ensures InBlock(sp, TangentialBlock, Entry(IntendedOffsets(sp), sp, c, i, 0))
  {
    var E := Count(sp.flags.edge);
    RankIndexesNonzero(sp.flags.edge, i);
    MulStep(c, sp.NC, E);
    BlockStarts(sp);
    assert Entry(IntendedOffsets(sp), sp, c, i, 0)
           == BlockStart(sp, TangentialBlock) + Flat(c, E, Rank(sp.flags.edge, i));
  }

  /** Every entry lies in the block of its (local DOF, component) slot. */
  lemma EntryInBlock(sp: ScalarSpace, c: nat, i: nat, k: nat)
    requires Valid(sp) && c < sp.NC && i < sp.Ldof() && k < 3
    ensures InBlock(sp, BlockOf(sp, i, k), Entry(IntendedOffsets(sp), sp, c, i, k))
  {
    if sp.flags.point[i] {
      NodeEntryInBlock(sp, c, i, k);
    } else if sp.flags.edge[i] {
      if k == 0 {
        TangentialEntryInBlock(sp, c, i);
      } else {
        SharedEdgeEntryInBlock(sp, c, i, k);
      }
    } else {
      InteriorEntryInBlock(sp, c, i, k);
    }
  }

  /** The blocks are adjacent and together cover exactly
      `[0, number_of_global_dofs())`. */
  lemma BlocksTileGlobalRange(sp: ScalarSpace)
    requires sp.p >= 1 && Count(sp.flags.edge) == 3 * EdgeDofs(sp.p)
    ensures BlockStart(sp, NodeBlock) == 0
    ensures BlockStart(sp, SharedEdgeBlock) == BlockStart(sp, NodeBlock) + BlockSize(sp, NodeBlock)
    ensures BlockStart(sp, InteriorBlock) == BlockStart(sp, SharedEdgeBlock) + BlockSize(sp, SharedEdgeBlock)
    ensures BlockStart(sp, TangentialBlock) == BlockStart(sp, InteriorBlock) + BlockSize(sp, InteriorBlock)
    ensures BlockStart(sp, TangentialBlock) + BlockSize(sp, TangentialBlock)
            == NumberOfGlobalDofs(2, sp.p, sp.N, sp.NE, 0, sp.NC)
  {
    BlockSizesRegrouped(EdgeDofs(sp.p), TriangleInteriorDofs(sp.p), sp.NE, sp.NC);
  }

  /** The block sizes with their products regrouped as in the closed form
      of the global count. */
  lemma BlockSizesRegrouped(e: nat, t: nat, NE: nat, NC: nat)
    ensures NC * (3 * e) == 3 * e * NC
    ensures 2 * (e * NE) == 2 * e * NE
    ensures 3 * (t * NC) == 3 * t * NC
  {
  }

  /** Blocks are disjoint. */
  lemma BlocksDisjoint(sp: ScalarSpace, b: Block, b': Block, g: nat)
    requires sp.p >= 1 && InBlock(sp, b, g) && InBlock(sp, b', g)
    ensures b == b'
  {
  }

  // ----- sharing -----

  /** What identifies a global DOF: a (scalar DOF, component) pair, or, for
      component 0 of an edge-interior DOF, the (cell, edge-DOF position)
      pair that owns its fresh index. */
  datatype DofKey = Component(s: nat, k: nat) | Tangential(c: nat, j: nat)

  function Key(sp: ScalarSpace, c: nat, i: nat, k: nat): DofKey
    requires Valid(sp) && c < sp.NC && i < sp.Ldof()
  {
    if sp.flags.edge[i] && k == 0 then Tangential(c, Rank(sp.flags.edge, i))
    else Component(sp.c2d[c][i], k)
  }

  /** The scalar DOF decides the class of every local DOF it sits at. */
  lemma ClassOfScalar(sp: ScalarSpace, c: nat, i: nat, c': nat, i': nat)
    requires Valid(sp) && c < sp.NC && i < sp.Ldof() && c' < sp.NC && i' < sp.Ldof()
    requires sp.c2d[c][i] == sp.c2d[c'][i']
    ensures sp.flags.point[i] == sp.flags.point[i']
    ensures sp.flags.edge[i] == sp.flags.edge[i']
    ensures sp.flags.interior[i] == sp.flags.interior[i']
  {
    assert InScalarBlock(sp, i, sp.c2d[c][i]);
    assert InScalarBlock(sp, i', sp.c2d[c'][i']);
    ScalarEndsOrdered(sp);
  }

  /** Equal keys give equal entries. */
  lemma SameKeySameEntry(sp: ScalarSpace, c: nat, i: nat, k: nat, c': nat, i': nat, k': nat)
    requires Valid(sp) && c < sp.NC && i < sp.Ldof() && k < 3
    requires c' < sp.NC && i' < sp.Ldof() && k' < 3
    requires Key(sp, c, i, k) == Key(sp, c', i', k')
    ensures Entry(IntendedOffsets(sp), sp, c, i, k) == Entry(IntendedOffsets(sp), sp, c', i', k')
  {
    if sp.flags.edge[i] && k == 0 {
      RankInjective(sp.flags.edge, i, i');
    } else {
      ClassOfScalar(sp, c, i, c', i');
    }
  }

  /** Within one block an index determines its key. */
  lemma SameBlockSameKey(sp: ScalarSpace, c: nat, i: nat, k: nat, c': nat, i': nat, k': nat)
    requires Valid(sp) && c < sp.NC && i < sp.Ldof() && k < 3
    requires c' < sp.NC && i' < sp.Ldof() && k' < 3
    requires BlockOf(sp, i, k) == BlockOf(sp, i', k')
    requires Entry(IntendedOffsets(sp), sp, c, i, k) == Entry(IntendedOffsets(sp), sp, c', i', k')
    ensures Key(sp, c, i, k) == Key(sp, c', i', k')
  {
    match BlockOf(sp, i, k)
    case NodeBlock => NodeBlockKey(sp, c, i, k, c', i', k');
    case SharedEdgeBlock => SharedEdgeBlockKey(sp, c, i, k, c', i', k');
    case InteriorBlock => InteriorBlockKey(sp, c, i, k, c', i', k');
    case TangentialBlock => TangentialBlockKey(sp, c, i, c', i');
  }

  lemma NodeBlockKey(sp: ScalarSpace, c: nat, i: nat, k: nat, c': nat, i': nat, k': nat)
    requires Valid(sp) && c < sp.NC && i < sp.Ldof() && k < 3 && c' < sp.NC && i' < sp.Ldof() && k' < 3
    requires sp.flags.point[i] && sp.flags.point[i']
    requires Entry(IntendedOffsets(sp), sp, c, i, k) == Entry(IntendedOffsets(sp), sp, c', i', k')
    ensures Key(sp, c, i, k) == Key(sp, c', i', k')
  {
    RowMajorUnique(sp.c2d[c][i], k, sp.c2d[c'][i'], k', 3);
  }

  lemma SharedEdgeBlockKey(sp: ScalarSpace, c: nat, i: nat, k: nat, c': nat, i': nat, k': nat)
    requires Valid(sp) && c < sp.NC && i < sp.Ldof() && 0 < k < 3 && c' < sp.NC && i' < sp.Ldof() && 0 < k' < 3
    requires sp.flags.edge[i] && sp.flags.edge[i']
    requires Entry(IntendedOffsets(sp), sp, c, i, k) == Entry(IntendedOffsets(sp), sp, c', i', k')
    ensures Key(sp, c, i, k) == Key(sp, c', i', k')
  {
    var s, s' := sp.c2d[c][i], sp.c2d[c'][i'];
    assert InScalarBlock(sp, i, s);
    assert InScalarBlock(sp, i', s');
    RowMajorUnique(s - sp.N, k - 1, s' - sp.N, k' - 1, 2);
  }

  lemma InteriorBlockKey(sp: ScalarSpace, c: nat, i: nat, k: nat, c': nat, i': nat, k': nat)
    requires Valid(sp) && c < sp.NC && i < sp.Ldof() && k < 3 && c' < sp.NC && i' < sp.Ldof() && k' < 3
    requires sp.flags.interior[i] && sp.flags.interior[i']
    requires Entry(IntendedOffsets(sp), sp, c, i, k) == Entry(IntendedOffsets(sp), sp, c', i', k')
    ensures Key(sp, c, i, k) == Key(sp, c', i', k')
  {
    var s, s' := sp.c2d[c][i], sp.c2d[c'][i'];
    assert InScalarBlock(sp, i, s);
    assert InScalarBlock(sp, i', s');
    RowMajorUnique(s - sp.EdgeEnd(), k, s' - sp.EdgeEnd(), k', 3);
  }

  lemma TangentialBlockKey(sp: ScalarSpace, c: nat, i: nat, c': nat, i': nat)
    requires Valid(sp) && c < sp.NC && i < sp.Ldof() && c' < sp.NC && i' < sp.Ldof()
    requires sp.flags.edge[i] && sp.flags.edge[i']
    requires Entry(IntendedOffsets(sp), sp, c, i, 0) == Entry(IntendedOffsets(sp), sp, c', i', 0)
    ensures Key(sp, c, i, 0) == Key(sp, c', i', 0)
  {
    RankIndexesNonzero(sp.flags.edge, i);
    RankIndexesNonzero(sp.flags.edge, i');
    RowMajorUnique(c, Rank(sp.flags.edge, i), c', Rank(sp.flags.edge, i'), Count(sp.flags.edge));
  }

  /** Equal entries come from equal keys. */
  lemma SameEntrySameKey(sp: ScalarSpace, c: nat, i: nat, k: nat, c': nat, i': nat, k': nat)
    requires Valid(sp) && c < sp.NC && i < sp.Ldof() && k < 3
    requires c' < sp.NC && i' < sp.Ldof() && k' < 3
    requires Entry(IntendedOffsets(sp), sp, c, i, k) == Entry(IntendedOffsets(sp), sp, c', i', k')
    ensures Key(sp, c, i, k) == Key(sp, c', i', k')
  {
    EntryInBlock(sp, c, i, k);
    EntryInBlock(sp, c', i', k');
    BlocksDisjoint(sp, BlockOf(sp, i, k), BlockOf(sp, i', k'), Entry(IntendedOffsets(sp), sp, c, i, k));
    SameBlockSameKey(sp, c, i, k, c', i', k');
  }

  /** Two slots get the same global index exactly when they have the same
      key: point, shared-edge and interior components are shared by every
      cell holding the same scalar DOF and nothing else, and each tangential
      index belongs to one (cell, local edge DOF) pair only. */
  lemma EntrySharedExactlyOnKey(sp: ScalarSpace, c: nat, i: nat, k: nat, c': nat, i': nat, k': nat)
    requires Valid(sp) && c < sp.NC && i < sp.Ldof() && k < 3
    requires c' < sp.NC && i' < sp.Ldof() && k' < 3
    ensures Entry(IntendedOffsets(sp), sp, c, i, k) == Entry(IntendedOffsets(sp), sp, c', i', k')
            <==> Key(sp, c, i, k) == Key(sp, c', i', k')
  {
    if Key(sp, c, i, k) == Key(sp, c', i', k') {
      SameKeySameEntry(sp, c, i, k, c', i', k');
    }
    if Entry(IntendedOffsets(sp), sp, c, i, k) == Entry(IntendedOffsets(sp), sp, c', i', k') {
      SameEntrySameKey(sp, c, i, k, c', i', k');
    }
  }

  /** Two cells that hold the same scalar edge-interior DOF see the same
      global indices for components 1 and 2 and different ones for the
      tangential component 0. */
  lemma SharedEdgeComponents(sp: ScalarSpace, c: nat, i: nat, c': nat, i': nat)
    requires Valid(sp) && c < sp.NC && i < sp.Ldof() && c' < sp.NC && i' < sp.Ldof()
    requires sp.flags.edge[i] && sp.c2d[c][i] == sp.c2d[c'][i'] && c != c'
    ensures forall k :: 1 <= k < 3 ==>
              Entry(IntendedOffsets(sp), sp, c, i, k) == Entry(IntendedOffsets(sp), sp, c', i', k)
    ensures Entry(IntendedOffsets(sp), sp, c, i, 0) != Entry(IntendedOffsets(sp), sp, c', i', 0)
  {
    ClassOfScalar(sp, c, i, c', i');
    forall k | 1 <= k < 3
      ensures Entry(IntendedOffsets(sp), sp, c, i, k) == Entry(IntendedOffsets(sp), sp, c', i', k)
    {
      EntrySharedExactlyOnKey(sp, c, i, k, c', i', k);
    }
    EntrySharedExactlyOnKey(sp, c, i, 0, c', i', 0);
  }

  // ----- every index is used -----

  /** Every scalar DOF occurs in some cell, as in any Lagrange space. */
  predicate EveryScalarDofOccurs(sp: ScalarSpace)
    requires sp.p >= 1
  {
    forall s :: 0 <= s < sp.ScalarEnd() ==> Occurs(sp, s)
  }

  /** Some slot of the intended map holds index `g`. */
  predicate Written(sp: ScalarSpace, g: nat)
    requires Valid(sp)
  {
    exists c, i, k :: 0 <= c < sp.NC && 0 <= i < sp.Ldof() && 0 <= k < 3
      && Entry(IntendedOffsets(sp), sp, c, i, k) == g
  }

  /** The scalar blocks follow one another. */
  lemma ScalarEndsOrdered(sp: ScalarSpace)
    requires sp.p >= 1
    ensures sp.N <= sp.EdgeEnd() <= sp.ScalarEnd()
  {
  }

  /** A scalar DOF below `N` is a node DOF, and its components are
      numbered `3*s + k`. */
  lemma NodeEntry(sp: ScalarSpace, c: nat, i: nat, k: nat)
    requires Valid(sp) && c < sp.NC && i < sp.Ldof() && k < 3 && sp.c2d[c][i] < sp.N
    ensures Entry(IntendedOffsets(sp), sp, c, i, k) == 3 * sp.c2d[c][i] + k
  {
    assert InScalarBlock(sp, i, sp.c2d[c][i]);
    ScalarEndsOrdered(sp);
  }

  /** A scalar DOF in the edge block is an edge-interior DOF; its shared
      components `k = 1, 2` are numbered `3N + 2(s - N) + k - 1`. */
  lemma SharedEdgeEntry(sp: ScalarSpace, c: nat, i: nat, k: nat)
    requires Valid(sp) && c < sp.NC && i < sp.Ldof() && 0 < k < 3
    requires sp.N <= sp.c2d[c][i] < sp.EdgeEnd()
    ensures Entry(IntendedOffsets(sp), sp, c, i, k) == 3 * sp.N + 2 * (sp.c2d[c][i] - sp.N) + (k - 1)
  {
    assert InScalarBlock(sp, i, sp.c2d[c][i]);
    ScalarEndsOrdered(sp);
  }

  /** A scalar DOF in the cell block is a cell-interior DOF; all three
      components follow the shared edge block. */
  lemma InteriorEntry(sp: ScalarSpace, c: nat, i: nat, k: nat)
    requires Valid(sp) && c < sp.NC && i < sp.Ldof() && k < 3
    requires sp.EdgeEnd() <= sp.c2d[c][i] < sp.ScalarEnd()
    ensures Entry(IntendedOffsets(sp), sp, c, i, k)
            == IntendedOffsets(sp).interiorTensor + 3 * (sp.c2d[c][i] - sp.EdgeEnd()) + k
  {
    assert InScalarBlock(sp, i, sp.c2d[c][i]);
    ScalarEndsOrdered(sp);
  }

  lemma NodeIndexWritten(sp: ScalarSpace, g: nat)
    requires Valid(sp) && EveryScalarDofOccurs(sp) && g < 3 * sp.N
    ensures Written(sp, g)
  {
    var s, k := RowMajorSplit(g, sp.N, 3);
    ScalarEndsOrdered(sp);
    assert Occurs(sp, s);
    var c, i :| 0 <= c < |sp.c2d| && 0 <= i < |sp.c2d[c]| && sp.c2d[c][i] == s;
    NodeEntry(sp, c, i, k);
  }

  lemma SharedEdgeIndexWritten(sp: ScalarSpace, g: nat)
    requires Valid(sp) && EveryScalarDofOccurs(sp) && InBlock(sp, SharedEdgeBlock, g)
    ensures Written(sp, g)
  {
    BlockStarts(sp);
    ScalarEndsOrdered(sp);
    var d := g - 3 * sp.N;
    var q, r := RowMajorSplit(d, EdgeDofs(sp.p) * sp.NE, 2);
    var s, k := sp.N + q, r + 1;
    assert Occurs(sp, s);
    var c, i :| 0 <= c < |sp.c2d| && 0 <= i < |sp.c2d[c]| && sp.c2d[c][i] == s;
    SharedEdgeEntry(sp, c, i, k);
  }

  lemma InteriorIndexWritten(sp: ScalarSpace, g: nat)
    requires Valid(sp) && EveryScalarDofOccurs(sp) && InBlock(sp, InteriorBlock, g)
    ensures Written(sp, g)
  {
    BlockStarts(sp);
    ScalarEndsOrdered(sp);
    var d := g - BlockStart(sp, InteriorBlock);
    var q, k := RowMajorSplit(d, TriangleInteriorDofs(sp.p) * sp.NC, 3);
    var s := sp.EdgeEnd() + q;
    assert Occurs(sp, s);
    var c, i :| 0 <= c < |sp.c2d| && 0 <= i < |sp.c2d[c]| && sp.c2d[c][i] == s;
    InteriorEntry(sp, c, i, k);
  }

  lemma TangentialIndexWritten(sp: ScalarSpace, g: nat)
    requires Valid(sp) && InBlock(sp, TangentialBlock, g)
    ensures Written(sp, g)
  {
    BlockStarts(sp);
    var E := Count(sp.flags.edge);
    var d := g - BlockStart(sp, TangentialBlock);
    var c, j := RowMajorSplit(d, sp.NC, E);
    RankSurjective(sp.flags.edge, j);
    var i :| 0 <= i < sp.Ldof() && sp.flags.edge[i] && Rank(sp.flags.edge, i) == j;
    assert Entry(IntendedOffsets(sp), sp, c, i, 0) == g;
  }

  /** When every scalar DOF occurs in some cell, every index below
      `number_of_global_dofs()` is written by some slot of the map, so the
      count is exactly the number of distinct indices. */
  lemma EveryIndexWritten(sp: ScalarSpace, g: nat)
    requires Valid(sp) && LagrangeCounts(sp) && EveryScalarDofOccurs(sp)
    requires g < NumberOfGlobalDofs(2, sp.p, sp.N, sp.NE, 0, sp.NC)
    ensures Written(sp, g)
  {
    BlocksTileGlobalRange(sp);
    if g < BlockStart(sp, SharedEdgeBlock) {
      NodeIndexWritten(sp, g);
    } else if g < BlockStart(sp, InteriorBlock) {
      SharedEdgeIndexWritten(sp, g);
    } else if g < BlockStart(sp, TangentialBlock) {
      InteriorIndexWritten(sp, g);
    } else {
      TangentialIndexWritten(sp, g);
    }
  }

  // ----- the map as written -----

  /** Away from `p == 2` the offsets as written are the intended ones, so
      the map `init_cell_to_dof` builds is the intended map. */
  lemma AsWrittenAgreesExceptDegreeTwo(sp: ScalarSpace)
    requires Valid(sp) && LagrangeCounts(sp) && sp.p != 2
    ensures CellToDofAsWritten(sp) == CellToDof(sp)
  {
    var w, o := WrittenOffsets(sp), IntendedOffsets(sp);
    TriangleInteriorClosedForm(sp.p);
    if sp.p >= 3 {
      TriangleInteriorPositive(sp.p);
      BlockSizesRegrouped(EdgeDofs(sp.p), TriangleInteriorDofs(sp.p), sp.NE, sp.NC);
      assert w == o;
    } else {
      forall c, i, k | 0 <= c < sp.NC && 0 <= i < sp.Ldof() && 0 <= k < 3
        ensures Entry(w, sp, c, i, k) == Entry(o, sp, c, i, k)
      {
        DegreeOneEntriesAgree(sp, c, i, k);
      }
      TablesAgree(w, o, sp);
    }
  }

  /** At degree 1 there are only node DOFs, so the offsets never matter. */
  lemma DegreeOneEntriesAgree(sp: ScalarSpace, c: nat, i: nat, k: nat)
    requires Valid(sp) && LagrangeCounts(sp) && sp.p == 1
    requires c < sp.NC && i < sp.Ldof() && k < 3
    ensures Entry(WrittenOffsets(sp), sp, c, i, k) == Entry(IntendedOffsets(sp), sp, c, i, k)
  {
    if !sp.flags.point[i] {
      if sp.flags.edge[i] {
        NonzeroComplete(sp.flags.edge, i);
      } else {
        TriangleInteriorClosedForm(sp.p);
        NonzeroComplete(sp.flags.interior, i);
      }
    }
  }

  /** Offsets that give every slot the same entry give the same map. */
  lemma TablesAgree(o: Offsets, o': Offsets, sp: ScalarSpace)
    requires Valid(sp) && o.interiorScalar <= sp.EdgeEnd() && o'.interiorScalar <= sp.EdgeEnd()
    requires forall c, i, k :: 0 <= c < sp.NC && 0 <= i < sp.Ldof() && 0 <= k < 3 ==>
               Entry(o, sp, c, i, k) == Entry(o', sp, c, i, k)
    ensures Table(o, sp) == Table(o', sp)
  {
    var a, b := Table(o, sp), Table(o', sp);
    forall c | 0 <= c < sp.NC
      ensures a[c] == b[c]
    {
      forall m | 0 <= m < |a[c]|
        ensures a[c][m] == b[c][m]
      {
        var i, k := RowMajorSplit(m, sp.Ldof(), 3);
        assert a[c][3 * i + k] == b[c][3 * i + k];
      }
    }
  }

  /** At `p == 2` there are no cell-interior DOFs, so `init_cell_to_dof` never adds
      the shared edge block to `base1`: its tangential block starts at
      `3*N`, inside the shared edge block, instead of after it. */
  lemma AsWrittenTangentialOverlapsAtDegreeTwo(sp: ScalarSpace)
    requires Valid(sp) && LagrangeCounts(sp) && sp.p == 2 && sp.NE > 0
    ensures WrittenOffsets(sp).tangential == BlockStart(sp, SharedEdgeBlock)
    ensures InBlock(sp, SharedEdgeBlock, WrittenOffsets(sp).tangential)
    ensures WrittenOffsets(sp).tangential < IntendedOffsets(sp).tangential
  {
    TriangleInteriorClosedForm(sp.p);
  }

  /** One triangle of degree 2 with the scalar numbering of the Lagrange
      space: vertex DOFs 0, 1, 2 at local 0, 3, 5 and edge DOFs 3, 4, 5 at
      local 1, 2, 4. */
  function OneTriangleDegreeTwo(): ScalarSpace {
    ScalarSpace(2, 3, 3, 1, [[0, 3, 4, 1, 5, 2]],
                LocalDofFlags([true, false, false, true, false, true],
                              [false, true, true, false, true, false],
                              [false, false, false, false, false, false],
                              [false, false, false, false, false, false]))
  }

  lemma OneTrianglePartition()
    ensures Partition(OneTriangleDegreeTwo().flags)
  {
    var fl := OneTriangleDegreeTwo().flags;
    forall i | 0 <= i < 6
      ensures Indicator(fl.point[i]) + Indicator(fl.edge[i]) + Indicator(fl.face[i])
              + Indicator(fl.interior[i]) == 1
    {
    }
  }

  /** With no cell-interior DOFs at degree 2, the six scalar DOFs are the
      three nodes and the three edges. */
  lemma OneTriangleEnds()
    ensures OneTriangleDegreeTwo().EdgeEnd() == 6 && OneTriangleDegreeTwo().ScalarEnd() == 6
  {
    assert TriangleInteriorDofs(2) == 0;
  }

  lemma OneTriangleBlocks()
    ensures Partition(OneTriangleDegreeTwo().flags)
    ensures forall i :: 0 <= i < 6 ==> InScalarBlock(OneTriangleDegreeTwo(), i, OneTriangleDegreeTwo().c2d[0][i])
  {
    OneTrianglePartition();
    OneTriangleEnds();
  }

  lemma OneTriangleCounts()
    ensures LagrangeCounts(OneTriangleDegreeTwo())
  {
    var fl := OneTriangleDegreeTwo().flags;
    CountLiteral(fl.point);
    CountLiteral(fl.edge);
    CountLiteral(fl.interior);
    assert TriangleInteriorDofs(2) == 0;
  }

  lemma OneTriangleValid()
    ensures Valid(OneTriangleDegreeTwo())
    ensures LagrangeCounts(OneTriangleDegreeTwo())
  {
    var sp := OneTriangleDegreeTwo();
    OneTriangleBlocks();
    forall c, i | 0 <= c < |sp.c2d| && 0 <= i < |sp.c2d[c]|
      ensures InScalarBlock(sp, i, sp.c2d[c][i])
    {
      assert c == 0;
    }
    OneTriangleCounts();
  }

  /** Counts of six-entry masks, entry by entry. */
  lemma CountLiteral(e: seq<bool>)
    requires |e| == 6
    ensures Count(e) == Indicator(e[0]) + Indicator(e[1]) + Indicator(e[2])
                        + Indicator(e[3]) + Indicator(e[4]) + Indicator(e[5])
  {
    assert e[..0] == [];
    assert Count(e[..0]) == 0;
    CountSnoc(e, 0);
    assert Count(e[..1]) == Indicator(e[0]);
    CountSnoc(e, 1);
    assert Count(e[..2]) == Indicator(e[0]) + Indicator(e[1]);
    CountSnoc(e, 2);
    CountSnoc(e, 3);
    CountSnoc(e, 4);
    CountSnoc(e, 5);
    assert e[..6] == e;
  }

  /** The offsets `init_cell_to_dof` computes on that triangle start the tangential block at
      9, the first index of the shared edge block. */
  lemma OneTriangleOffsets()
    ensures WrittenOffsets(OneTriangleDegreeTwo()) == Offsets(3, 9, 9)
    ensures IntendedOffsets(OneTriangleDegreeTwo()) == Offsets(6, 15, 15)
  {
    OneTriangleValid();
    TriangleInteriorClosedForm(2);
  }

  /** Local DOF 1 sits on an edge and is the first edge DOF of the cell;
      its scalar DOF is 3, the first edge DOF. */
  lemma OneTriangleWrittenEntries()
    ensures Valid(OneTriangleDegreeTwo())
    ensures Entry(WrittenOffsets(OneTriangleDegreeTwo()), OneTriangleDegreeTwo(), 0, 1, 0) == 9
    ensures Entry(WrittenOffsets(OneTriangleDegreeTwo()), OneTriangleDegreeTwo(), 0, 1, 1) == 9
  {
    var sp := OneTriangleDegreeTwo();
    OneTriangleValid();
    OneTriangleOffsets();
    assert Rank(sp.flags.edge, 1) == 0 by {
      assert sp.flags.edge[..1] == [false];
      assert sp.flags.edge[..1][..0] == [];
    }
    assert sp.flags.edge[1] && sp.c2d[0][1] == 3 && sp.N == 3;
    EdgeSlotEntries(WrittenOffsets(sp), sp, 0, 1);
  }

  /** The tangential and first shared component of an edge-interior DOF. */
  lemma EdgeSlotEntries(o: Offsets, sp: ScalarSpace, c: nat, i: nat)
    requires Valid(sp) && c < sp.NC && i < sp.Ldof() && o.interiorScalar <= sp.EdgeEnd() && sp.flags.edge[i]
    ensures Entry(o, sp, c, i, 0) == o.tangential + Flat(c, Count(sp.flags.edge), Rank(sp.flags.edge, i))
    ensures Entry(o, sp, c, i, 1) == 3 * sp.N + 2 * (sp.c2d[c][i] - sp.N)
  {
  }

  /** The intended map gives component 0 of local DOF 1 the first index
      of the tangential block, 15. */
  lemma OneTriangleIntendedTangential()
    ensures Valid(OneTriangleDegreeTwo())
    ensures Entry(IntendedOffsets(OneTriangleDegreeTwo()), OneTriangleDegreeTwo(), 0, 1, 0) == 15
  {
    var sp := OneTriangleDegreeTwo();
    OneTriangleValid();
    OneTriangleOffsets();
    assert Rank(sp.flags.edge, 1) == 0 by {
      assert sp.flags.edge[..1] == [false];
      assert sp.flags.edge[..1][..0] == [];
    }
    assert sp.flags.edge[1];
    EdgeSlotEntries(IntendedOffsets(sp), sp, 0, 1);
  }

  lemma OneTriangleWrittenBelow(i: nat, k: nat)
    requires i < 6 && k < 3
    ensures Valid(OneTriangleDegreeTwo())
    ensures Entry(WrittenOffsets(OneTriangleDegreeTwo()), OneTriangleDegreeTwo(), 0, i, k) < 15
  {
    var sp := OneTriangleDegreeTwo();
    OneTriangleValid();
    OneTriangleOffsets();
    if sp.flags.edge[i] && k == 0 {
      RankIndexesNonzero(sp.flags.edge, i);
    }
  }

  /** On that triangle the map `init_cell_to_dof` builds gives component 0 and component 1
      of local DOF 1 the same index 9, and no entry reaches 15 although
      `number_of_global_dofs()` is 18; the intended map keeps the two
      apart. */
  lemma DegreeTwoCollision()
    ensures Valid(OneTriangleDegreeTwo())
    ensures CellToDofAsWritten(OneTriangleDegreeTwo())[0][3] == 9
    ensures CellToDofAsWritten(OneTriangleDegreeTwo())[0][4] == 9
    ensures forall m :: 0 <= m < 18 ==> CellToDofAsWritten(OneTriangleDegreeTwo())[0][m] < 15
    ensures NumberOfGlobalDofs(2, 2, 3, 3, 0, 1) == 18
    ensures CellToDof(OneTriangleDegreeTwo())[0][3] == 15
  {
    OneTriangleWrittenPair();
    OneTriangleWrittenRowBelow();
    OneTriangleIntendedEntry();
  }

  lemma OneTriangleWrittenPair()
    ensures Valid(OneTriangleDegreeTwo())
    ensures CellToDofAsWritten(OneTriangleDegreeTwo())[0][3] == 9
    ensures CellToDofAsWritten(OneTriangleDegreeTwo())[0][4] == 9
  {
    var sp := OneTriangleDegreeTwo();
    OneTriangleWrittenEntries();
    var a := CellToDofAsWritten(sp);
    assert a[0][3 * 1 + 0] == 9;
    assert a[0][3 * 1 + 1] == 9;
  }

  lemma OneTriangleWrittenRowBelow()
    ensures Valid(OneTriangleDegreeTwo())
    ensures forall m :: 0 <= m < 18 ==> CellToDofAsWritten(OneTriangleDegreeTwo())[0][m] < 15
  {
    var sp := OneTriangleDegreeTwo();
    OneTriangleValid();
    forall i, k | 0 <= i < 6 && 0 <= k < 3
      ensures Entry(WrittenOffsets(sp), sp, 0, i, k) < 15
    {
      OneTriangleWrittenBelow(i, k);
    }
    RowBelow(WrittenOffsets(sp), sp, 0, 15);
  }

  lemma OneTriangleIntendedEntry()
    ensures Valid(OneTriangleDegreeTwo())
    ensures NumberOfGlobalDofs(2, 2, 3, 3, 0, 1) == 18
    ensures CellToDof(OneTriangleDegreeTwo())[0][3] == 15
  {
    OneTriangleIntendedSlot();
  }

  lemma OneTriangleIntendedSlot()
    ensures Valid(OneTriangleDegreeTwo())
    ensures CellToDof(OneTriangleDegreeTwo())[0][3] == 15
  {
    var sp := OneTriangleDegreeTwo();
    OneTriangleIntendedTangential();
    assert CellToDof(sp)[0][3 * 1 + 0] == 15;
  }
}
