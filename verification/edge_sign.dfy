/** The per-cell, per-local-edge orientation sign of a triangle mesh
    (`cell_to_edge_sign` of the Raviart-Thomas, BDM and Nedelec spaces):
    `+1` where the cell is the left cell of the edge at that local index,
    `-1` everywhere else. Basis functions are multiplied by it so that the
    two cells sharing an edge agree on the edge's normal or tangential
    direction. */
module EdgeSign {

  /** One row of the mesh's `edge2cell`: the left and right cell of an
      edge and the edge's local index in each. A boundary edge repeats its
      only cell on both sides. */
  datatype EdgeCells = EdgeCells(left: nat, right: nat, leftLocal: nat, rightLocal: nat)

  /** The fancy-indexed assignment needs every left slot to exist. */
  predicate LeftSlotsInRange(NC: nat, edge2cell: seq<EdgeCells>) {
    forall e :: 0 <= e < |edge2cell| ==> edge2cell[e].left < NC && edge2cell[e].leftLocal < 3
  }

  /** Local edge `l` of cell `c` is the left slot of some edge. */
  predicate IsLeftSlot(edge2cell: seq<EdgeCells>, c: int, l: int) {
    exists e :: 0 <= e < |edge2cell| && edge2cell[e].left == c && edge2cell[e].leftLocal == l
  }

  /** The sign table as a value: `+1` at left slots, `-1` elsewhere. */
  function CellToEdgeSign(NC: nat, edge2cell: seq<EdgeCells>): (r: seq<seq<int>>)
    ensures |r| == NC
    ensures forall c :: 0 <= c < NC ==> |r[c]| == 3
    ensures forall c, l :: 0 <= c < NC && 0 <= l < 3 ==> r[c][l] == 1 || r[c][l] == -1
  {
    seq(NC, c => seq(3, l => if IsLeftSlot(edge2cell, c, l) then 1 else -1))
  }

  /** The construction in `cell_to_edge_sign`: a table of `-1`, then `1` written at the
      left slot of every edge in turn. Its result is the sign table. */
  method ScatterEdgeSigns(NC: nat, edge2cell: seq<EdgeCells>) returns (sign: seq<seq<int>>)
    requires LeftSlotsInRange(NC, edge2cell)
    ensures sign == CellToEdgeSign(NC, edge2cell)
  {
    sign := seq(NC, _ => [-1, -1, -1]);
    var e := 0;
    while e < |edge2cell|
      invariant 0 <= e <= |edge2cell|
      invariant |sign| == NC
      invariant forall c :: 0 <= c < NC ==> |sign[c]| == 3
      invariant forall c, l :: 0 <= c < NC && 0 <= l < 3 ==>
                  sign[c][l] == (if IsLeftSlot(edge2cell[..e], c, l) then 1 else -1)
    {
      var c, l := edge2cell[e].left, edge2cell[e].leftLocal;
      sign := sign[c := sign[c][l := 1]];
      forall c', l' | 0 <= c' < NC && 0 <= l' < 3
        ensures IsLeftSlot(edge2cell[..e + 1], c', l')
                <==> IsLeftSlot(edge2cell[..e], c', l') || (c' == c && l' == l)
      {
        if IsLeftSlot(edge2cell[..e + 1], c', l') {
          var e' :| 0 <= e' < e + 1 && edge2cell[..e + 1][e'].left == c'
                    && edge2cell[..e + 1][e'].leftLocal == l';
          if e' < e {
            assert edge2cell[..e][e'] == edge2cell[e'];
          }
        }
        if IsLeftSlot(edge2cell[..e], c', l') {
          var e' :| 0 <= e' < e && edge2cell[..e][e'].left == c' && edge2cell[..e][e'].leftLocal == l';
          assert edge2cell[..e + 1][e'] == edge2cell[e'];
        }
        if c' == c && l' == l {
          assert edge2cell[..e + 1][e] == edge2cell[e];
        }
      }
      e := e + 1;
    }
    assert edge2cell[..e] == edge2cell;
    forall c | 0 <= c < NC
      ensures sign[c] == CellToEdgeSign(NC, edge2cell)[c]
    {
    }
  }

  /** The mesh's `cell2edge` and `edge2cell` describe the same incidence:
      each edge is local edge `leftLocal` of its left cell and local edge
      `rightLocal` of its right cell. */
  predicate Consistent(NC: nat, cell2edge: seq<seq<nat>>, edge2cell: seq<EdgeCells>) {
    && |cell2edge| == NC
    && (forall c :: 0 <= c < NC ==> |cell2edge[c]| == 3)
    && forall e :: 0 <= e < |edge2cell| ==>
         var ec := edge2cell[e];
         && ec.left < NC && ec.leftLocal < 3 && ec.right < NC && ec.rightLocal < 3
         && cell2edge[ec.left][ec.leftLocal] == e && cell2edge[ec.right][ec.rightLocal] == e
  }

  /** Every local edge of every cell is a side of its edge. */
  predicate Covering(NC: nat, cell2edge: seq<seq<nat>>, edge2cell: seq<EdgeCells>)
    requires Consistent(NC, cell2edge, edge2cell)
  {
    forall c, l :: 0 <= c < NC && 0 <= l < 3 ==>
      cell2edge[c][l] < |edge2cell|
      && var ec := edge2cell[cell2edge[c][l]];
         (ec.left == c && ec.leftLocal == l) || (ec.right == c && ec.rightLocal == l)
  }

  /** The two cells of an interior edge see opposite signs: `+1` from the
      left cell, `-1` from the right cell; a boundary edge is `+1`. */
  lemma SignsOfAnEdge(NC: nat, cell2edge: seq<seq<nat>>, edge2cell: seq<EdgeCells>, e: nat)
    requires Consistent(NC, cell2edge, edge2cell) && e < |edge2cell|
    ensures CellToEdgeSign(NC, edge2cell)[edge2cell[e].left][edge2cell[e].leftLocal] == 1
    ensures (edge2cell[e].right, edge2cell[e].rightLocal) != (edge2cell[e].left, edge2cell[e].leftLocal)
            ==> CellToEdgeSign(NC, edge2cell)[edge2cell[e].right][edge2cell[e].rightLocal] == -1
  {
    var ec := edge2cell[e];
    assert IsLeftSlot(edge2cell, ec.left, ec.leftLocal);
  }

  /** On a consistent, covering mesh a slot has sign `-1` exactly when the
      cell is the right cell of that local edge and not also its left one. */
  lemma NegativeMeansRightCell(NC: nat, cell2edge: seq<seq<nat>>, edge2cell: seq<EdgeCells>, c: nat, l: nat)
    requires Consistent(NC, cell2edge, edge2cell) && Covering(NC, cell2edge, edge2cell)
    requires c < NC && l < 3
    ensures CellToEdgeSign(NC, edge2cell)[c][l] == -1 <==>
              var ec := edge2cell[cell2edge[c][l]];
              ec.right == c && ec.rightLocal == l && !(ec.left == c && ec.leftLocal == l)
  {
    var e := cell2edge[c][l];
    var ec := edge2cell[e];
    if IsLeftSlot(edge2cell, c, l) {
      var e' :| 0 <= e' < |edge2cell| && edge2cell[e'].left == c && edge2cell[e'].leftLocal == l;
      assert e' == e;
    }
  }
}
