# Mixed finite element DOF bookkeeping (fealpy `mixed_fem_space.py`)

This project models the integer degree-of-freedom (DOF) bookkeeping of
fealpy's mixed finite element spaces, in Dafny. The modelled parts are:

- **Hu-Zhang symmetric-tensor space** (`HuZhangFiniteElementSpace`) on
  triangles and tetrahedra:
  - `tensor_dimension`, `number_of_local_dofs` and `number_of_global_dofs`;
  - the two local DOF classifications `dof_flags` and `dof_flags_1`;
  - the global map `init_cell_to_dof`.

  Every local scalar Lagrange DOF carries `tdim` tensor components. The map
  numbers them block by block:
  - point DOFs get `tdim*s + k`;
  - the components of edge- and face-interior DOFs that stay continuous
    across cells are shared between cells;
  - cell-interior DOFs get all their components;
  - the tangential components of edge and face DOFs get fresh indices in
    every cell, so they are discontinuous.
- **Lowest-order H(div)/H(curl) elements on triangles**:
  - Raviart-Thomas and first-kind Nedelec at degree 0: one DOF per edge, and
    the cell map is `cell2edge`.
  - BDM and second-kind Nedelec at degree 1: edge `e` owns DOFs `2e` and
    `2e+1`, and each cell lists the pair forwards or reversed as its
    orientation says.
  - `cell_to_edge_sign`, the ±1 orientation table of these spaces.

## Modules

| file | module | contents |
|---|---|---|
| `options.dfy` | `Options` | `Option`, for the degrees the vector spaces do not implement |
| `masks.dfy` | `Masks` | `np.nonzero` of a boolean mask (`Nonzero`), its length (`Count`) and the position of an entry among the set ones (`Rank`) |
| `row_major.dfy` | `RowMajor` | row-major positions `c*E + j`, as produced by `np.arange(...).reshape(...)` |
| `hu_zhang_layout.dfy` | `HuZhangLayout` | tensor dimension, local and global counts, `dof_flags`, `dof_flags_1` |
| `hu_zhang_dof_map.dfy` | `HuZhangDofMap` | `init_cell_to_dof` on triangles: intended and as written |
| `hu_zhang_dof_map_3d.dfy` | `HuZhangDofMap3d` | `init_cell_to_dof` on tetrahedra: intended and as written |
| `edge_sign.dfy` | `EdgeSign` | `cell_to_edge_sign` |
| `vector_spaces.dfy` | `VectorSpaces` | counts, `edge_to_dof` and `cell_to_dof` of the four vector-element families |

## Inputs

The mesh and the scalar Lagrange space are inputs. They are described by
`HuZhangDofMap.ScalarSpace` and `HuZhangDofMap3d.TetSpace`:
- the degree `p`;
- the entity counts `N`, `NE`, `NF` and `NC`;
- the scalar cell-to-DOF map `c2d`;
- the DOF class masks that `dof_flags_1` returns.

The numbering relies on the following facts about these inputs. They are
stated as predicates and required where they are needed:
- **`Valid`:** the class masks partition the local DOFs. Node scalar DOFs
  come first, then `(p-1)*NE` edge-interior DOFs, then face-interior DOFs,
  then cell-interior DOFs.
- **`LagrangeCounts`:** the local class sizes are those of the degree-`p`
  Lagrange element.
- **`EveryScalarDofOccurs`:** every scalar DOF occurs in some cell.

The map is built in two versions:
- **`CellToDof`** uses the block offsets the numbering is designed for.
- **`CellToDofAsWritten`** accumulates `base0`/`base1` exactly as the code
  does.

The two agree wherever every DOF class is present. See "## Findings" for
where they differ.

## Model

| member | source | states |
|---|---|---|
| HuZhangLayout.TensorDimension | fealpy/functionspace/mixed_fem_space.py:178-180 | a symmetric tensor has 3 independent components in 2D and 6 in 3D |
| HuZhangLayout.TensorDimensionCountsPairs | fealpy/functionspace/mixed_fem_space.py:178-180 | `tensor_dimension()` is the number of index pairs `(j, k)` with `j <= k < dim`; the canonical list holds each such pair exactly once |
| HuZhangLayout.CanonicalPairs | fealpy/functionspace/mixed_fem_space.py:26-30 | the canonical pair lists are `idx` of the frame construction: `(0,0),(0,1),(1,1)` and `(0,0),(0,1),(0,2),(1,1),(1,2),(2,2)` |
| HuZhangLayout.TriangleInteriorClosedForm | fealpy/functionspace/mixed_fem_space.py:79 | `(p+1)(p+2)//2 - 3p` is the number of interior Lagrange DOFs of a triangle |
| HuZhangLayout.SourceFaceDofs | fealpy/functionspace/mixed_fem_space.py:150 | the `fdof` the map evaluates equals the triangle-interior DOF count |
| HuZhangLayout.TetrahedronInteriorClosedForm | fealpy/functionspace/mixed_fem_space.py:88 | `ldof - 6*edof - 4*fdof - 4` is the number of interior Lagrange DOFs of a tetrahedron |
| HuZhangLayout.SourceCellDofs | fealpy/functionspace/mixed_fem_space.py:158 | the `cdof` the 3D map evaluates equals the tetrahedron-interior DOF count |
| HuZhangLayout.TriangleInteriorPositive | fealpy/functionspace/mixed_fem_space.py:78-84 | faces carry interior DOFs from degree 3 on, the degrees the `p > 2` guard selects |
| HuZhangLayout.TetrahedronInteriorPositive | fealpy/functionspace/mixed_fem_space.py:86-89 | tetrahedra carry interior DOFs from degree 4 on, which is what the `p > 3` guard selects |
| HuZhangLayout.NumberOfLocalDofs | fealpy/functionspace/mixed_fem_space.py:92-94 | one local tensor DOF per pair of a scalar local DOF and a canonical index pair: `3*ldof` on triangles, `6*ldof` on tetrahedra |
| HuZhangLayout.SourceGlobalCount2d | fealpy/functionspace/mixed_fem_space.py:61-90 | on triangles the branches of `number_of_global_dofs()` (`p > 1`, `p > 2`) add up to `3N + 2(p-1)NE + 3(p-1)NC + 3*cdof*NC` for every degree |
| HuZhangLayout.SourceGlobalCount3d | fealpy/functionspace/mixed_fem_space.py:61-90 | on tetrahedra the branches (`p > 1`, `p > 2`, `p > 3`) add up to the six block sizes for every degree |
| HuZhangLayout.NumberOfGlobalDofs | fealpy/functionspace/mixed_fem_space.py:61-90 | `number_of_global_dofs()` is the sum of the blocks the map fills: `3N + 2(p-1)NE + 3(p-1)NC + 3*cdof*NC` on triangles and `6N + 5(p-1)NE + 6(p-1)NC + 3*fdof*NF + 12*fdof*NC + 6*cdof*NC` on tetrahedra |
| HuZhangLayout.ClearRows | fealpy/functionspace/mixed_fem_space.py:205 | `M[mask] = False` keeps the shape and clears exactly the selected rows |
| HuZhangLayout.ClearedRowsCollapse | fealpy/functionspace/mixed_fem_space.py:204-207 | after `M[mask] = False`, `np.sum(M, axis=-1) > 0` holds exactly for the rows not in `mask` that had a set entry |
| HuZhangLayout.AnyPerRow | fealpy/functionspace/mixed_fem_space.py:207 | `np.sum(M, axis=-1) > 0` holds exactly for rows with a set entry |
| HuZhangLayout.DofFlags1 | fealpy/functionspace/mixed_fem_space.py:245-259 | the four classes partition the local DOFs; point DOFs are the node DOFs; edge DOFs are the non-node DOFs on some edge; face DOFs (3D) are the remaining DOFs on some face; the rest are interior |
| HuZhangLayout.DofFlags | fealpy/functionspace/mixed_fem_space.py:200-221 | an edge (face) mask entry is set exactly when the DOF is on that edge (face) and in no earlier class; "other" DOFs are neither edge-interior nor, in 3D, face-interior |
| HuZhangLayout.DofFlagsAgree | fealpy/functionspace/mixed_fem_space.py:185-261 | the two classifications agree: "other" means point or interior, and a DOF is on some edge (face) in `dof_flags` exactly when it is an edge (face) DOF in `dof_flags_1` |
| Masks.Nonzero | fealpy/functionspace/mixed_fem_space.py:127 | `np.nonzero(m)[0]` has `Count(m)` strictly ascending entries, all set positions of `m` |
| Masks.NonzeroComplete | fealpy/functionspace/mixed_fem_space.py:127 | every set position of the mask occurs in `np.nonzero` |
| Masks.RankIndexesNonzero | fealpy/functionspace/mixed_fem_space.py:162-165 | the column `j` a local DOF gets in `arange(NC*len(idx)).reshape(NC, len(idx))` is its position in `idx`, and it is below `len(idx)` |
| Masks.RankInjective | fealpy/functionspace/mixed_fem_space.py:162-165 | two set local DOFs of one class have different columns |
| Masks.RankSurjective | fealpy/functionspace/mixed_fem_space.py:162-165 | every column below `len(idx)` belongs to some local DOF of the class |
| RowMajor.RowMajorSplit | fealpy/functionspace/mixed_fem_space.py:165 | every index below `NC*len(idx)` of the reshaped `arange` is some (row, column) position |
| RowMajor.RowMajorUnique | fealpy/functionspace/mixed_fem_space.py:171 | different (row, column) positions of a reshaped `arange` hold different values |
| HuZhangDofMap.IntendedOffsets | fealpy/functionspace/mixed_fem_space.py:130-165 | the designed offsets are the block starts: cell-interior scalar DOFs are numbered after the node and edge scalar blocks, and the interior and tangential tensor offsets are the starts of the interior and tangential blocks in pass order |
| HuZhangDofMap.WrittenOffsets | fealpy/functionspace/mixed_fem_space.py:130-165 | the offsets as `base0`/`base1` accumulate them never pass the edge scalar block; with edge- and cell-interior DOFs present they are the designed ones; without cell-interior DOFs the interior tensor block starts at `3N` (or 0), not past the shared edge block |
| HuZhangDofMap.Entry | fealpy/functionspace/mixed_fem_space.py:127-165 | for any offsets, node components land below `3N`, shared edge components (`k = 1, 2`) in the `2(p-1)NE` indices after them, component 0 of an edge DOF in the `NC*len(idx)` indices from the tangential offset, and interior components in the `3*cdof*NC` indices from the interior offset |
| HuZhangDofMap.Table | fealpy/functionspace/mixed_fem_space.py:92-94 | each row of the reshaped map has `number_of_local_dofs()` entries; slot `3i+k` holds component `k` of local DOF `i` |
| HuZhangDofMap.CellToDof | fealpy/functionspace/mixed_fem_space.py:99-173 | the map has one row per cell of `3*ldof` entries; when a cell has `3(p-1)` edge-interior DOFs, every entry is below `number_of_global_dofs()` |
| HuZhangDofMap.CellToDofAsWritten | fealpy/functionspace/mixed_fem_space.py:130-173 | the map as the code accumulates its offsets has the same shape |
| HuZhangDofMap.NodeEntry | fealpy/functionspace/mixed_fem_space.py:127-128 | component `k` of node scalar DOF `s` is `3s + k` in every cell |
| HuZhangDofMap.SharedEdgeEntry | fealpy/functionspace/mixed_fem_space.py:132-137 | component `k = 1, 2` of edge-interior scalar DOF `s` is `3N + 2(s-N) + (k-1)`, whichever cell holds it |
| HuZhangDofMap.InteriorEntry | fealpy/functionspace/mixed_fem_space.py:139-145 | component `k` of cell-interior scalar DOF `s` is the interior block start plus `3(s - EdgeEnd) + k`, in every cell |
| HuZhangDofMap.BlockStarts | fealpy/functionspace/mixed_fem_space.py:130-165 | the offsets `base1` takes at each pass are the block starts: `3N`, `3N + 2(p-1)NE` and, for the tangential block, that plus `3*cdof*NC` |
| HuZhangDofMap.NodeEntryInBlock | fealpy/functionspace/mixed_fem_space.py:127-128 | node components land in `[0, 3N)` |
| HuZhangDofMap.SharedEdgeEntryInBlock | fealpy/functionspace/mixed_fem_space.py:132-137 | shared edge components land in `[3N, 3N + 2(p-1)NE)` |
| HuZhangDofMap.InteriorEntryInBlock | fealpy/functionspace/mixed_fem_space.py:139-145 | cell-interior components land in the interior block |
| HuZhangDofMap.TangentialEntryInBlock | fealpy/functionspace/mixed_fem_space.py:162-165 | component 0 of the `j`-th edge DOF of cell `c` is `base1 + c*len(idx) + j` and lands in the tangential block after the interior block |
| HuZhangDofMap.EntryInBlock | fealpy/functionspace/mixed_fem_space.py:99-173 | every (local DOF, component) slot lands in the block of its class |
| HuZhangDofMap.BlocksTileGlobalRange | fealpy/functionspace/mixed_fem_space.py:61-90 | the four blocks are adjacent, start at 0 and end exactly at `number_of_global_dofs()` |
| HuZhangDofMap.BlocksDisjoint | fealpy/functionspace/mixed_fem_space.py:130-165 | no index lies in two blocks |
| HuZhangDofMap.ClassOfScalar | fealpy/functionspace/mixed_fem_space.py:120-128 | a scalar DOF has one class in every cell that holds it |
| HuZhangDofMap.SameKeySameEntry | fealpy/functionspace/mixed_fem_space.py:127-145 | slots with the same scalar DOF and shared component get the same index in every cell |
| HuZhangDofMap.SameEntrySameKey | fealpy/functionspace/mixed_fem_space.py:127-165 | slots with the same index have the same key: the same (scalar DOF, component), or the same (cell, column) in the tangential block |
| HuZhangDofMap.EntrySharedExactlyOnKey | fealpy/functionspace/mixed_fem_space.py:99-173 | two slots share an index if and only if they have the same key |
| HuZhangDofMap.SharedEdgeComponents | fealpy/functionspace/mixed_fem_space.py:132-165 | two cells holding one edge-interior scalar DOF share components 1 and 2 and never component 0 |
| HuZhangDofMap.NodeIndexWritten | fealpy/functionspace/mixed_fem_space.py:127-128 | every index in the node block is written by some slot |
| HuZhangDofMap.SharedEdgeIndexWritten | fealpy/functionspace/mixed_fem_space.py:132-137 | every index in the shared edge block is written by some slot |
| HuZhangDofMap.InteriorIndexWritten | fealpy/functionspace/mixed_fem_space.py:139-145 | every index in the interior block is written by some slot |
| HuZhangDofMap.TangentialIndexWritten | fealpy/functionspace/mixed_fem_space.py:162-165 | every index in the tangential block is written by some slot |
| HuZhangDofMap.EveryIndexWritten | fealpy/functionspace/mixed_fem_space.py:61-173 | every index below `number_of_global_dofs()` occurs in the map, so the count is exactly the number of distinct indices |
| HuZhangDofMap.AsWrittenAgreesExceptDegreeTwo | fealpy/functionspace/mixed_fem_space.py:130-165 | for every degree other than 2 the offsets as written give the intended map |
| HuZhangDofMap.DegreeOneEntriesAgree | fealpy/functionspace/mixed_fem_space.py:127-128 | at degree 1 only node DOFs exist, so the offsets never matter |
| HuZhangDofMap.AsWrittenTangentialOverlapsAtDegreeTwo | fealpy/functionspace/mixed_fem_space.py:139-165 | at degree 2 the tangential block as written starts at `3N`, inside the shared edge block |
| HuZhangDofMap.OneTriangleOffsets | fealpy/functionspace/mixed_fem_space.py:130-165 | on one degree-2 triangle the written offsets are (3, 9, 9) and the intended ones are (6, 15, 15) |
| HuZhangDofMap.DegreeTwoCollision | fealpy/functionspace/mixed_fem_space.py:137-165 | on one degree-2 triangle the written map puts index 9 in slots 3 and 4, and all its entries stay below 15 of the 18 counted; the intended map puts 15 in slot 3 |
| HuZhangDofMap3d.IntendedOffsets | fealpy/functionspace/mixed_fem_space.py:130-171 | the designed offsets stay inside the scalar blocks they subtract, and the face, interior, edge-tangential and face-tangential tensor offsets are the starts of those blocks in pass order |
| HuZhangDofMap3d.WrittenOffsets | fealpy/functionspace/mixed_fem_space.py:130-171 | the code produces offsets exactly when there are face-interior DOFs; otherwise reading `edof` at line 158 raises `UnboundLocalError` |
| HuZhangDofMap3d.Entry | fealpy/functionspace/mixed_fem_space.py:127-171 | for any offsets, node components land below `6N`, shared edge components in the `5(p-1)NE` indices after them, shared face components (`k = 3..5`) from the face offset, the edge and face tangential components in their per-cell ranges, and interior components from the interior offset |
| HuZhangDofMap3d.Table | fealpy/functionspace/mixed_fem_space.py:92-94 | each row has `number_of_local_dofs() = 6*ldof` entries; slot `6i+k` holds component `k` of local DOF `i` |
| HuZhangDofMap3d.CellToDof | fealpy/functionspace/mixed_fem_space.py:99-173 | one row per cell of `6*ldof` entries; with Lagrange class sizes every entry is below `number_of_global_dofs()` |
| HuZhangDofMap3d.CellToDofAsWritten | fealpy/functionspace/mixed_fem_space.py:130-173 | the code builds a map exactly when face-interior DOFs exist, with the intended shape |
| HuZhangDofMap3d.NodeEntry | fealpy/functionspace/mixed_fem_space.py:127-128 | component `k` of node scalar DOF `s` is `6s + k` |
| HuZhangDofMap3d.SharedEdgeEntry | fealpy/functionspace/mixed_fem_space.py:132-137 | component `k = 1..5` of edge-interior scalar DOF `s` is `6N + 5(s-N) + (k-1)` |
| HuZhangDofMap3d.SharedFaceEntry | fealpy/functionspace/mixed_fem_space.py:139-148 | component `k = 3..5` of face-interior scalar DOF `s` is `faceTensor + 3(s - EdgeEnd) + (k-3)` |
| HuZhangDofMap3d.InteriorEntry | fealpy/functionspace/mixed_fem_space.py:152-157 | component `k` of cell-interior scalar DOF `s` is `interiorTensor + 6(s - FaceEnd) + k` |
| HuZhangDofMap3d.BlockStarts | fealpy/functionspace/mixed_fem_space.py:130-171 | the shared edge block, which `base1` reaches after the node pass, starts at `6N` |
| HuZhangDofMap3d.NodeEntryInBlock | fealpy/functionspace/mixed_fem_space.py:127-128 | node components land in `[0, 6N)` |
| HuZhangDofMap3d.SharedEdgeEntryInBlock | fealpy/functionspace/mixed_fem_space.py:132-137 | shared edge components land in the shared edge block |
| HuZhangDofMap3d.SharedFaceEntryInBlock | fealpy/functionspace/mixed_fem_space.py:146-148 | shared face components land in the shared face block |
| HuZhangDofMap3d.InteriorEntryInBlock | fealpy/functionspace/mixed_fem_space.py:152-157 | cell-interior components land in the interior block |
| HuZhangDofMap3d.EdgeTangentialEntryInBlock | fealpy/functionspace/mixed_fem_space.py:162-165 | component 0 of an edge DOF lands in the edge tangential block |
| HuZhangDofMap3d.FaceTangentialEntryInBlock | fealpy/functionspace/mixed_fem_space.py:167-171 | components 0..2 of a face DOF land in the face tangential block |
| HuZhangDofMap3d.EntryInBlock | fealpy/functionspace/mixed_fem_space.py:99-173 | every slot lands in the block of its class |
| HuZhangDofMap3d.BlocksTileGlobalRange | fealpy/functionspace/mixed_fem_space.py:61-90 | the six blocks together end exactly at `number_of_global_dofs()` |
| HuZhangDofMap3d.BlocksOrdered | fealpy/functionspace/mixed_fem_space.py:130-171 | a block ends before any later block in the pass order starts |
| HuZhangDofMap3d.BlocksDisjoint | fealpy/functionspace/mixed_fem_space.py:130-171 | no index lies in two blocks |
| HuZhangDofMap3d.ClassOfScalar | fealpy/functionspace/mixed_fem_space.py:120-128 | a scalar DOF has one class in every cell that holds it |
| HuZhangDofMap3d.SameKeySameEntry | fealpy/functionspace/mixed_fem_space.py:127-157 | slots with the same scalar DOF and shared component get the same index in every cell |
| HuZhangDofMap3d.SameEntrySameKey | fealpy/functionspace/mixed_fem_space.py:127-171 | slots with the same index have the same key |
| HuZhangDofMap3d.EntrySharedExactlyOnKey | fealpy/functionspace/mixed_fem_space.py:99-173 | two slots share an index if and only if they have the same key |
| HuZhangDofMap3d.SharedEdgeComponents | fealpy/functionspace/mixed_fem_space.py:132-165 | two cells holding one edge-interior scalar DOF share components 1..5 and never component 0 |
| HuZhangDofMap3d.SharedFaceComponents | fealpy/functionspace/mixed_fem_space.py:146-171 | two cells holding one face-interior scalar DOF share components 3..5 and never components 0..2 |
| HuZhangDofMap3d.NodeIndexWritten | fealpy/functionspace/mixed_fem_space.py:127-128 | every index of the node block is written |
| HuZhangDofMap3d.SharedEdgeIndexWritten | fealpy/functionspace/mixed_fem_space.py:132-137 | every index of the shared edge block is written |
| HuZhangDofMap3d.SharedFaceIndexWritten | fealpy/functionspace/mixed_fem_space.py:146-148 | every index of the shared face block is written |
| HuZhangDofMap3d.InteriorIndexWritten | fealpy/functionspace/mixed_fem_space.py:152-157 | every index of the interior block is written |
| HuZhangDofMap3d.EdgeTangentialIndexWritten | fealpy/functionspace/mixed_fem_space.py:162-165 | every index of the edge tangential block is written |
| HuZhangDofMap3d.FaceTangentialIndexWritten | fealpy/functionspace/mixed_fem_space.py:167-171 | every index of the face tangential block is written |
| HuZhangDofMap3d.EveryIndexWritten | fealpy/functionspace/mixed_fem_space.py:61-173 | every index below `number_of_global_dofs()` occurs in the map, for every degree |
| HuZhangDofMap3d.AsWrittenFailsBelowDegreeThree | fealpy/functionspace/mixed_fem_space.py:139-158 | below degree 3 the code builds no map, although `number_of_global_dofs()` counts at least `6N` DOFs |
| HuZhangDofMap3d.AsWrittenAgreesFromDegreeFour | fealpy/functionspace/mixed_fem_space.py:130-171 | from degree 4 on the map as written is the intended map |
| HuZhangDofMap3d.AsWrittenTangentialOverlapsAtDegreeThree | fealpy/functionspace/mixed_fem_space.py:152-165 | at degree 3 the edge tangential block as written starts at the start of the shared face block |
| HuZhangDofMap3d.DegreeThreeCollidingEntries | fealpy/functionspace/mixed_fem_space.py:146-165 | at degree 3, component 0 of the first edge DOF of cell 0 and component 3 of the first face scalar DOF get one index, with different keys |
| HuZhangDofMap3d.DegreeThreeCollision | fealpy/functionspace/mixed_fem_space.py:139-171 | on every degree-3 mesh with a face and a cell, the map as written gives one index to two slots with different keys |
| EdgeSign.CellToEdgeSign | fealpy/functionspace/mixed_fem_space.py:446-452 | the sign table has one row of 3 per cell and every entry is `1` or `-1` |
| EdgeSign.ScatterEdgeSigns | fealpy/functionspace/mixed_fem_space.py:446-452 | writing `1` at `(edge2cell[:,0], edge2cell[:,2])` into a table of `-1` gives `1` exactly at the left slots of edges |
| EdgeSign.SignsOfAnEdge | fealpy/functionspace/mixed_fem_space.py:446-452 | the left cell of an edge sees `1`; the right cell of an interior edge sees `-1` |
| EdgeSign.NegativeMeansRightCell | fealpy/functionspace/mixed_fem_space.py:446-452 | on a consistent mesh a slot is `-1` exactly when its cell is the right and not the left cell of that edge |
| VectorSpaces.NumberOfLocalDofs | fealpy/functionspace/mixed_fem_space.py:557-563 | 3 local DOFs (RT, first Nedelec) or 6 (BDM, second Nedelec) at the one implemented degree, and none at any other |
| VectorSpaces.NumberOfGlobalDofs | fealpy/functionspace/mixed_fem_space.py:546-554 | `NE` or `2NE` global DOFs at the implemented degree, and none at any other |
| VectorSpaces.EdgeToDof | fealpy/functionspace/mixed_fem_space.py:666-678 | at degree 1 edge `e` owns DOFs `g` with `g / 2 == e`, at position `g % 2`, and every DOF below `2NE` is owned this way; no map at any other degree |
| VectorSpaces.CellToDof | fealpy/functionspace/mixed_fem_space.py:680-705 | no map at an unsupported degree; `cell2edge` itself at degree 0; at degree 1 one row of 6 per cell with every entry below `number_of_global_dofs()` |
| VectorSpaces.PairSlotsHoldTheirEdge | fealpy/functionspace/mixed_fem_space.py:694-703 | slots `2l` and `2l+1` hold the two different DOFs of local edge `l`, in order exactly when the edge is oriented forwards |
| VectorSpaces.SharedEdgeSeenReversed | fealpy/functionspace/mixed_fem_space.py:694-703 | with the sign table's orientation, the left cell of an interior edge lists `(2e, 2e+1)` and the right cell `(2e+1, 2e)` |
| VectorSpaces.EveryDofUsed | fealpy/functionspace/mixed_fem_space.py:529-544 | on a consistent mesh every global DOF appears in some cell's row |
| VectorSpaces.RowEntriesDistinct | fealpy/functionspace/mixed_fem_space.py:680-705 | a cell with three distinct edges gets distinct DOFs in its row |

The sign table and counts are shared line for line by several classes:
- `cell_to_edge_sign` appears at lines 446-452, 571-577, 803-809 and
  934-940.
- Raviart-Thomas (lines 529-563) and first-kind Nedelec (lines 894-927)
  share the degree-0 counts and map.
- BDM (lines 666-723) and second-kind Nedelec (lines 1037-1095) share the
  degree-1 counts, `edge_to_dof` and map.

`VectorSpaces` covers each shared definition once, with a `Family`
parameter. `EdgeSign` serves all four classes.

## Left out

- `init_orth_matrices` and the tensor frames `T`, `TE`, `TF` (lines
  18-56): these use SVD, `sqrt(2)` scaling and floating-point products.
  Only the integer `idx` lists are modelled, by
  `HuZhangLayout.SymmetricIndexPairs`.
- Basis evaluation, `div_basis`, `value`, `div_value`, `interpolation`,
  `function` and `array` of every class: these are floating-point einsum
  contractions with no index bookkeeping.
- `RaviartThomasFiniteElementSpace3d` (lines 726-794): a stub whose
  `cell_to_dof` returns `cell2dof` without ever assigning it, so it
  raises `NameError`.
- The mesh and the scalar Lagrange space (`cell2dof`, the
  `is_on_*_local_dof` masks, `edge2cell`, `cell2edge`, the entity counts):
  these are not part of this model. Their outputs are inputs here, and
  what the numbering needs from them is required as `Valid`,
  `LagrangeCounts`, `EveryScalarDofOccurs`, `Consistent` and `Covering`.
- The BDM and second-kind Nedelec `cell_to_dof` index with the mesh's own
  `cell_to_edge_sign()` and its `~` (lines 691-703, 1080-1093). That
  method is not part of this model. The model takes a boolean
  orientation per (cell, local edge) and places the edge's pair forwards
  where it is true. `VectorSpaces.OrientedBySigns` ties the orientation to
  `EdgeSign.CellToEdgeSign` for `VectorSpaces.SharedEdgeSeenReversed`.
- A geometric dimension other than 2 or 3: the space cannot be
  constructed (`init_orth_matrices` never binds `idx`), so the dimension
  is a precondition.
- The error branches of the vector spaces print a message and then
  return `None`, or raise `UnboundLocalError` on reading a name they
  never bound (lines 544, 678, 927 and 1067; the BDM and second-kind
  Nedelec `cell_to_dof` raise inside `edge_to_dof`, called at lines 689
  and 1078, before reaching 705 and 1095). Both are modelled as `None`;
  the printing is left out.
- Degree 0 for the Hu-Zhang space: every Hu-Zhang member requires
  `p >= 1`. The numbering needs vertex DOFs, which a degree-0 scalar
  space does not have, and at `p == 0` the code's `edof = p - 1` would be
  negative.
- `numpy` integer width: all indices are unbounded naturals. The counts
  involved are far below 64-bit limits.
- HuZhangDofMap.CellToDofAsWritten: only its shape is stated as an
  `ensures`; how it relates to the intended map is stated in the lemmas
  named under "## Findings".

## Findings

| source | as written | input that shows it | evidently intended | confidence | as-written member | corrected member |
|---|---|---|---|---|---|---|
| fealpy/functionspace/mixed_fem_space.py:139-165 | on triangles, `base0 += edof*NE` and `base1 += (tdim-1)*edof*NE` are reached only when cell-interior DOFs exist; at `p == 2` there are none, so the tangential block starts at `3N`, inside the shared edge block | one triangle of degree 2 (N = 3, NE = 3, NC = 1): slots 3 and 4 (components 0 and 1 of the first edge DOF) both get index 9; all entries stay below 15 while `number_of_global_dofs()` is 18 | advance the offsets past the edge block whenever edge DOFs exist, so the tangential block starts after the interior block and every index below the count is used once per key | not executed | HuZhangDofMap.DegreeTwoCollision | HuZhangDofMap.EntrySharedExactlyOnKey |
| fealpy/functionspace/mixed_fem_space.py:152-168 | on tetrahedra, `base0 += fdof*NF` and `base1 += (tdim-3)*fdof*NF` are reached only when cell-interior DOFs exist; at `p == 3` there are none, so the edge tangential block starts at the shared face block | any degree-3 tetrahedral mesh with a face and a cell: component 0 of the first edge DOF of cell 0 and component 3 of the first face scalar DOF get the same index | advance the offsets past the face block whenever face DOFs exist | not executed | HuZhangDofMap3d.DegreeThreeCollision | HuZhangDofMap3d.EntrySharedExactlyOnKey |
| fealpy/functionspace/mixed_fem_space.py:139-158 | on tetrahedra, `edof = p - 1` is bound only inside the face-DOF branch, and line 158 reads it unconditionally | any tetrahedral mesh of degree 1 or 2: there are no face-interior DOFs, so reading `edof` at line 158 raises `UnboundLocalError` and no map is built, while `number_of_global_dofs()` counts at least `6N` DOFs | bind `edof` before the branches, giving the block layout at every degree | not executed | HuZhangDofMap3d.AsWrittenFailsBelowDegreeThree | HuZhangDofMap3d.EveryIndexWritten |
