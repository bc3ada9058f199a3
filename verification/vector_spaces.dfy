/** Lowest-order H(div) and H(curl) elements on triangles: Raviart-Thomas
    and first-kind Nedelec at degree 0 (one DOF per edge), BDM and
    second-kind Nedelec at degree 1 (two DOFs per edge). The two families
    in each pair share their DOF bookkeeping line for line, so one
    definition serves both. Any other degree has no DOF map: `mixed_fem_space.py`
    prints an error and returns nothing, which is `None` here. */
module VectorSpaces {
  import opened Options
  import opened EdgeSign

  datatype Family = RaviartThomas | FirstNedelec | BDM | SecondNedelec

  /** The one degree each family implements. */
  function SupportedDegree(f: Family): nat {
    match f
    case RaviartThomas | FirstNedelec => 0
    case BDM | SecondNedelec => 1
  }

  /** BDM and second-kind Nedelec put a pair of DOFs on every edge. */
  predicate PairPerEdge(f: Family) {
    f.BDM? || f.SecondNedelec?
  }

  /** DOFs carried by one edge at the supported degree. */
  function DofsPerEdge(f: Family): nat {
    if PairPerEdge(f) then 2 else 1
  }

  /** `number_of_local_dofs`: one value per supported degree. */
  function NumberOfLocalDofs(f: Family, p: int): (r: Option<nat>)
    ensures r.Some? <==> p == SupportedDegree(f)
    ensures r.Some? ==> r.value == 3 * DofsPerEdge(f)
  {
    match f
    case RaviartThomas | FirstNedelec => if p == 0 then Some(3) else None
    case BDM | SecondNedelec => if p == 1 then Some(6) else None
  }

  /** `number_of_global_dofs`: one value per supported degree. */
  function NumberOfGlobalDofs(f: Family, p: int, NE: nat): (r: Option<nat>)
    ensures r.Some? <==> p == SupportedDegree(f)
    ensures r.Some? ==> r.value == DofsPerEdge(f) * NE
  {
    match f
    case RaviartThomas | FirstNedelec => if p == 0 then Some(NE) else None
    case BDM | SecondNedelec => if p == 1 then Some(2 * NE) else None
  }

  /** `edge_to_dof` of the pair families: row `e` of `0 .. 2NE-1` laid out
      as an `NE x 2` array. It is a bijection between (edge, position) and
      the global DOFs: DOF `g` is position `g % 2` of edge `g / 2`. */
  function EdgeToDof(f: Family, p: int, NE: nat): (r: Option<seq<seq<nat>>>)
    requires PairPerEdge(f)
    ensures r.Some? <==> p == 1
    ensures r.Some? ==> |r.value| == NE && forall e :: 0 <= e < NE ==> |r.value[e]| == 2
    ensures r.Some? ==> forall e, t :: 0 <= e < NE && 0 <= t < 2 ==>
              r.value[e][t] < NumberOfGlobalDofs(f, p, NE).value && r.value[e][t] / 2 == e && r.value[e][t] % 2 == t
    ensures r.Some? ==> forall g :: 0 <= g < NumberOfGlobalDofs(f, p, NE).value ==>
              g / 2 < NE && r.value[g / 2][g % 2] == g
  {
    if p == 1 then Some(seq(NE, e => [2 * e, 2 * e + 1])) else None
  }

  /** A triangle mesh's `cell2edge` and the orientation flag per (cell,
      local edge) have one row of three per cell. */
  predicate TriangleShaped(cell2edge: seq<seq<nat>>, orient: seq<seq<bool>>) {
    && |orient| == |cell2edge|
    && (forall c :: 0 <= c < |cell2edge| ==> |cell2edge[c]| == 3)
    && (forall c :: 0 <= c < |orient| ==> |orient[c]| == 3)
  }

  predicate EdgesInRange(NE: nat, cell2edge: seq<seq<nat>>) {
    forall c, l :: 0 <= c < |cell2edge| && 0 <= l < |cell2edge[c]| ==> cell2edge[c][l] < NE
  }

  /** The entry of slot `m` of a cell in the pair families: the pair of
      local edge `m / 2`, in order when that edge is oriented forwards,
      reversed otherwise. */
  function PairSlot(edge2dof: seq<seq<nat>>, edges: seq<nat>, forward: seq<bool>, m: nat): nat
    requires |edges| == 3 && |forward| == 3 && m < 6
    requires edges[m / 2] < |edge2dof| && |edge2dof[edges[m / 2]]| == 2
  {
    edge2dof[edges[m / 2]][if forward[m / 2] then m % 2 else 1 - m % 2]
  }

  /** `cell_to_dof`: `cell2edge` itself for the one-per-edge families; for
      the pair families, slots `2l, 2l+1` hold the pair of local edge `l`
      forwards or reversed as `orient` says. */
  function CellToDof(f: Family, p: int, NE: nat, cell2edge: seq<seq<nat>>, orient: seq<seq<bool>>)
    : (r: Option<seq<seq<nat>>>)
    requires TriangleShaped(cell2edge, orient)
    requires PairPerEdge(f) ==> EdgesInRange(NE, cell2edge)
    ensures r.Some? <==> p == SupportedDegree(f)
    ensures r.Some? ==> |r.value| == |cell2edge|
    ensures r.Some? && !PairPerEdge(f) ==> r.value == cell2edge
    ensures r.Some? ==> forall c :: 0 <= c < |r.value| ==> |r.value[c]| == NumberOfLocalDofs(f, p).value
    ensures r.Some? && EdgesInRange(NE, cell2edge) ==>
              forall c, m :: 0 <= c < |r.value| && 0 <= m < |r.value[c]| ==>
                r.value[c][m] < NumberOfGlobalDofs(f, p, NE).value
  {
    if p != SupportedDegree(f) then None
    else if !PairPerEdge(f) then Some(cell2edge)
    else
      var edge2dof := EdgeToDof(f, p, NE).value;
      Some(seq(|cell2edge|, c requires 0 <= c < |cell2edge| =>
             seq(6, m requires 0 <= m < 6 => PairSlot(edge2dof, cell2edge[c], orient[c], m))))
  }

  /** In the pair families every slot's DOF belongs to the edge of that
      slot (`g / 2` is the edge), slots `2l` and `2l+1` hold the two
      different DOFs of the edge, and the first of them is the edge's
      first DOF exactly when the edge is oriented forwards. */
  lemma PairSlotsHoldTheirEdge(f: Family, NE: nat, cell2edge: seq<seq<nat>>, orient: seq<seq<bool>>,
                               c: nat, l: nat)
    requires PairPerEdge(f) && TriangleShaped(cell2edge, orient) && EdgesInRange(NE, cell2edge)
    requires c < |cell2edge| && l < 3
    ensures var row := CellToDof(f, 1, NE, cell2edge, orient).value[c];
            && row[2 * l] / 2 == cell2edge[c][l] && row[2 * l + 1] / 2 == cell2edge[c][l]
            && row[2 * l] != row[2 * l + 1]
            && (row[2 * l] % 2 == 0 <==> orient[c][l])
  {
    assert (2 * l) / 2 == l && (2 * l + 1) / 2 == l;
    assert (2 * l) % 2 == 0 && (2 * l + 1) % 2 == 1;
  }

  /** The orientation a pair-family cell uses is the sign table's: forwards
      where the cell is the left cell of the edge. */
  predicate OrientedBySigns(NC: nat, edge2cell: seq<EdgeCells>, orient: seq<seq<bool>>)
    requires |orient| == NC && forall c :: 0 <= c < NC ==> |orient[c]| == 3
  {
    forall c, l :: 0 <= c < NC && 0 <= l < 3 ==> (orient[c][l] <==> CellToEdgeSign(NC, edge2cell)[c][l] == 1)
  }

  /** The two cells of an interior edge use the same two DOFs of that edge
      in opposite orders: `(2e, 2e+1)` in the left cell and `(2e+1, 2e)`
      in the right cell. */
  lemma SharedEdgeSeenReversed(f: Family, cell2edge: seq<seq<nat>>, edge2cell: seq<EdgeCells>,
                               orient: seq<seq<bool>>, e: nat)
    requires PairPerEdge(f) && TriangleShaped(cell2edge, orient)
    requires Consistent(|cell2edge|, cell2edge, edge2cell) && EdgesInRange(|edge2cell|, cell2edge)
    requires OrientedBySigns(|cell2edge|, edge2cell, orient)
    requires e < |edge2cell|
    requires (edge2cell[e].right, edge2cell[e].rightLocal) != (edge2cell[e].left, edge2cell[e].leftLocal)
    ensures var t := CellToDof(f, 1, |edge2cell|, cell2edge, orient).value;
            var ec := edge2cell[e];
            && t[ec.left][2 * ec.leftLocal] == 2 * e && t[ec.left][2 * ec.leftLocal + 1] == 2 * e + 1
            && t[ec.right][2 * ec.rightLocal] == 2 * e + 1 && t[ec.right][2 * ec.rightLocal + 1] == 2 * e
  {
    var ec := edge2cell[e];
    SignsOfAnEdge(|cell2edge|, cell2edge, edge2cell, e);
    assert orient[ec.left][ec.leftLocal];
    assert !orient[ec.right][ec.rightLocal];
    assert (2 * ec.leftLocal) / 2 == ec.leftLocal && (2 * ec.leftLocal + 1) / 2 == ec.leftLocal;
    assert (2 * ec.rightLocal) / 2 == ec.rightLocal && (2 * ec.rightLocal + 1) / 2 == ec.rightLocal;
  }

  /** On a consistent mesh every global DOF appears in some cell's row. */
  lemma EveryDofUsed(f: Family, cell2edge: seq<seq<nat>>, edge2cell: seq<EdgeCells>,
                     orient: seq<seq<bool>>, g: nat)
    requires TriangleShaped(cell2edge, orient)
    requires Consistent(|cell2edge|, cell2edge, edge2cell) && EdgesInRange(|edge2cell|, cell2edge)
    requires g < NumberOfGlobalDofs(f, SupportedDegree(f), |edge2cell|).value
    ensures var t := CellToDof(f, SupportedDegree(f), |edge2cell|, cell2edge, orient).value;
            exists c, m :: 0 <= c < |t| && 0 <= m < |t[c]| && t[c][m] == g
  {
    var NE := |edge2cell|;
    var t := CellToDof(f, SupportedDegree(f), NE, cell2edge, orient).value;
    if PairPerEdge(f) {
      var e := g / 2;
      var c, l := edge2cell[e].left, edge2cell[e].leftLocal;
      var m := if orient[c][l] then 2 * l + g % 2 else 2 * l + 1 - g % 2;
      assert m / 2 == l;
      assert t[c][m] == g;
    } else {
      var c, l := edge2cell[g].left, edge2cell[g].leftLocal;
      assert t[c][l] == g;
    }
  }

  /** Slot `m` of a pair-family row holds a DOF of local edge `m / 2`,
      at the position `m % 2` when that edge is oriented forwards. */
  lemma PairSlotValue(f: Family, NE: nat, cell2edge: seq<seq<nat>>, orient: seq<seq<bool>>, c: nat, m: nat)
    requires PairPerEdge(f) && TriangleShaped(cell2edge, orient) && EdgesInRange(NE, cell2edge)
    requires c < |cell2edge| && m < 6
    ensures var g := CellToDof(f, 1, NE, cell2edge, orient).value[c][m];
            g / 2 == cell2edge[c][m / 2] && (g % 2 == m % 2 <==> orient[c][m / 2])
  {
  }

  /** A cell whose three edges are distinct gets distinct DOFs in its row. */
  lemma RowEntriesDistinct(f: Family, NE: nat, cell2edge: seq<seq<nat>>, orient: seq<seq<bool>>,
                           c: nat, m: nat, m': nat)
    requires TriangleShaped(cell2edge, orient) && EdgesInRange(NE, cell2edge)
    requires c < |cell2edge|
    requires forall l, l' :: 0 <= l < l' < 3 ==> cell2edge[c][l] != cell2edge[c][l']
    requires m < m' < NumberOfLocalDofs(f, SupportedDegree(f)).value
    ensures CellToDof(f, SupportedDegree(f), NE, cell2edge, orient).value[c][m]
            != CellToDof(f, SupportedDegree(f), NE, cell2edge, orient).value[c][m']
  {
    if PairPerEdge(f) {
      PairSlotValue(f, NE, cell2edge, orient, c, m);
      PairSlotValue(f, NE, cell2edge, orient, c, m');
      if m / 2 == m' / 2 {
        assert m % 2 != m' % 2;
      } else {
        assert cell2edge[c][m / 2] != cell2edge[c][m' / 2];
      }
    }
  }
}
