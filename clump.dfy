/** Clumps: the cells one flood fill takes, and the bounding-box shape
    Clump.prototype.computeShape makes of them. */
module Clumps {
  import opened Catalog
  import opened Board

  /** One taken cell: its position and its colour. */
  datatype ClumpNode = ClumpNode(row: int, col: int, val: int)

  function PosOf(n: ClumpNode): Pos
  {
    Pos(n.row, n.col)
  }

  /** The node is a cell of the 16 x 10 board. */
  predicate OnBoard(n: ClumpNode)
  {
    0 <= n.row < Rows && 0 <= n.col < Cols
  }

  /** No two nodes share a position. */
  predicate Distinct(ns: seq<ClumpNode>)
  {
    forall i, j :: 0 <= i < j < |ns| ==> PosOf(ns[i]) != PosOf(ns[j])
  }

  /** A non-empty set of distinct board cells with non-zero colours. */
  predicate WellFormed(ns: seq<ClumpNode>)
  {
    |ns| > 0 && Distinct(ns) && forall i :: 0 <= i < |ns| ==> OnBoard(ns[i]) && ns[i].val != 0
  }

  // ---------------------------------------------------------------------------
  // The bounding box
  // ---------------------------------------------------------------------------

  /** rowMin after the first loop of computeShape: the least row, starting from 15. */
  function MinRow(ns: seq<ClumpNode>): int
  {
    if ns == [] then Rows - 1
    else
      var m := MinRow(ns[..|ns| - 1]);
      if ns[|ns| - 1].row < m then ns[|ns| - 1].row else m
  }

  /** colMin after the first loop of computeShape: the least column, starting from 9. */
  function MinCol(ns: seq<ClumpNode>): int
  {
    if ns == [] then Cols - 1
    else
      var m := MinCol(ns[..|ns| - 1]);
      if ns[|ns| - 1].col < m then ns[|ns| - 1].col else m
  }

  /** rowMax after the second loop: the greatest (relative) row, starting from 0. */
  function MaxRow(ns: seq<ClumpNode>): int
  {
    if ns == [] then 0
    else
      var m := MaxRow(ns[..|ns| - 1]);
      if ns[|ns| - 1].row > m then ns[|ns| - 1].row else m
  }

  /** colMax after the second loop: the greatest (relative) column, starting from 0. */
  function MaxCol(ns: seq<ClumpNode>): int
  {
    if ns == [] then 0
    else
      var m := MaxCol(ns[..|ns| - 1]);
      if ns[|ns| - 1].col > m then ns[|ns| - 1].col else m
  }

  /** rowMin is at most 15, at most every row, and is 15 or some node's row. */
  lemma {:induction false} MinRowSpec(ns: seq<ClumpNode>)
    ensures MinRow(ns) <= Rows - 1
    ensures forall i :: 0 <= i < |ns| ==> MinRow(ns) <= ns[i].row
    ensures MinRow(ns) == Rows - 1 || exists i :: 0 <= i < |ns| && ns[i].row == MinRow(ns)
  {
    if ns != [] {
      MinRowSpec(ns[..|ns| - 1]);
    }
  }

  /** colMin is at most 9, at most every column, and is 9 or some node's column. */
  lemma {:induction false} MinColSpec(ns: seq<ClumpNode>)
    ensures MinCol(ns) <= Cols - 1
    ensures forall i :: 0 <= i < |ns| ==> MinCol(ns) <= ns[i].col
    ensures MinCol(ns) == Cols - 1 || exists i :: 0 <= i < |ns| && ns[i].col == MinCol(ns)
  {
    if ns != [] {
      MinColSpec(ns[..|ns| - 1]);
    }
  }

  /** rowMax is at least 0, at least every row, and is 0 or some node's row. */
  lemma {:induction false} MaxRowSpec(ns: seq<ClumpNode>)
    ensures 0 <= MaxRow(ns)
    ensures forall i :: 0 <= i < |ns| ==> ns[i].row <= MaxRow(ns)
    ensures MaxRow(ns) == 0 || exists i :: 0 <= i < |ns| && ns[i].row == MaxRow(ns)
  {
    if ns != [] {
      MaxRowSpec(ns[..|ns| - 1]);
    }
  }

  /** colMax is at least 0, at least every column, and is 0 or some node's column. */
  lemma {:induction false} MaxColSpec(ns: seq<ClumpNode>)
    ensures 0 <= MaxCol(ns)
    ensures forall i :: 0 <= i < |ns| ==> ns[i].col <= MaxCol(ns)
    ensures MaxCol(ns) == 0 || exists i :: 0 <= i < |ns| && ns[i].col == MaxCol(ns)
  {
    if ns != [] {
      MaxColSpec(ns[..|ns| - 1]);
    }
  }

  /** A node moved by (-dr, -dc). */
  function ShiftNode(n: ClumpNode, dr: int, dc: int): ClumpNode
  {
    ClumpNode(n.row - dr, n.col - dc, n.val)
  }

  /** The nodes with their coordinates made relative to (dr, dc). */
  function Shift(ns: seq<ClumpNode>, dr: int, dc: int): (rel: seq<ClumpNode>)
  {
    seq(|ns|, i requires 0 <= i < |ns| => ShiftNode(ns[i], dr, dc))
  }

  /** An h x w matrix of zeros. */
  function ZeroMatrix(h: nat, w: nat): Matrix
  {
    seq(h, _ => seq(w, _ => 0))
  }

  /** Every node is a cell of `m`. */
  predicate Inside(m: Matrix, ns: seq<ClumpNode>)
  {
    forall i :: 0 <= i < |ns| ==> 0 <= ns[i].row < |m| && 0 <= ns[i].col < |m[ns[i].row]|
  }

  /** `m` after writing each node's colour at its position, in node order. */
  function Paint(m: Matrix, ns: seq<ClumpNode>): (p: Matrix)
    requires Inside(m, ns)
    ensures |p| == |m| && forall r :: 0 <= r < |m| ==> |p[r]| == |m[r]|
  {
    if ns == [] then m
    else
      var p := Paint(m, ns[..|ns| - 1]);
      var n := ns[|ns| - 1];
      p[n.row := p[n.row][n.col := n.val]]
  }

  /** The colour of the last node at (r, c), or `dflt` if none is there. */
  function LastAt(ns: seq<ClumpNode>, r: int, c: int, dflt: int): int
  {
    if ns == [] then dflt
    else if ns[|ns| - 1].row == r && ns[|ns| - 1].col == c then ns[|ns| - 1].val
    else LastAt(ns[..|ns| - 1], r, c, dflt)
  }

  /** The top-left computeShape records: (rowMin, colMin). */
  function BoxTopLeft(ns: seq<ClumpNode>): Pos
  {
    Pos(MinRow(ns), MinCol(ns))
  }

  /** The relative nodes computeShape leaves in the clump. */
  function Relative(ns: seq<ClumpNode>): seq<ClumpNode>
  {
    Shift(ns, MinRow(ns), MinCol(ns))
  }

  /** The shape computeShape returns: the (rowMax+1) x (colMax+1) zero matrix
      with every relative node's colour written in. */
  function BoxShape(ns: seq<ClumpNode>): Matrix
  {
    var rel := Relative(ns);
    ZeroMatrix(MaxRow(rel) + 1, MaxCol(rel) + 1)
  }

  /** Relative coordinates lie in 0..rowMax and 0..colMax. */
  lemma RelativeBounds(ns: seq<ClumpNode>)
    ensures forall i :: 0 <= i < |ns| ==>
      0 <= Relative(ns)[i].row <= MaxRow(Relative(ns)) && 0 <= Relative(ns)[i].col <= MaxCol(Relative(ns))
  {
    MinRowSpec(ns);
    MinColSpec(ns);
    MaxRowSpec(Relative(ns));
    MaxColSpec(Relative(ns));
  }

  lemma RelativeInside(ns: seq<ClumpNode>)
    ensures Inside(BoxShape(ns), Relative(ns))
  {
    RelativeBounds(ns);
  }

  /** The shape computeShape returns. */
  function ClumpShape(ns: seq<ClumpNode>): Matrix
  {
    RelativeInside(ns);
    Paint(BoxShape(ns), Relative(ns))
  }

  /** Each cell of a painted matrix holds the last colour written there. */
  lemma {:induction false} PaintCell(m: Matrix, ns: seq<ClumpNode>, r: int, c: int)
    requires Inside(m, ns) && 0 <= r < |m| && 0 <= c < |m[r]|
    ensures Paint(m, ns)[r][c] == LastAt(ns, r, c, m[r][c])
  {
    if ns != [] {
      PaintCell(m, ns[..|ns| - 1], r, c);
    }
  }

  /** With distinct positions the last colour at a node's position is its own. */
  lemma {:induction false} LastAtNode(ns: seq<ClumpNode>, i: int, dflt: int)
    requires Distinct(ns) && 0 <= i < |ns|
    ensures LastAt(ns, ns[i].row, ns[i].col, dflt) == ns[i].val
  {
    if i < |ns| - 1 {
      assert PosOf(ns[i]) != PosOf(ns[|ns| - 1]);
      LastAtNode(ns[..|ns| - 1], i, dflt);
    }
  }

  /** A position no node has keeps the default. */
  lemma {:induction false} LastAtNone(ns: seq<ClumpNode>, r: int, c: int, dflt: int)
    requires forall i :: 0 <= i < |ns| ==> PosOf(ns[i]) != Pos(r, c)
    ensures LastAt(ns, r, c, dflt) == dflt
  {
    if ns != [] {
      assert PosOf(ns[|ns| - 1]) != Pos(r, c);
      LastAtNone(ns[..|ns| - 1], r, c, dflt);
    }
  }

  lemma ShiftDistinct(ns: seq<ClumpNode>, dr: int, dc: int)
    requires Distinct(ns)
    ensures Distinct(Shift(ns, dr, dc))
  {
    forall i, j | 0 <= i < j < |ns| ensures PosOf(Shift(ns, dr, dc)[i]) != PosOf(Shift(ns, dr, dc)[j]) {
      assert PosOf(ns[i]) != PosOf(ns[j]);
    }
  }

  /** computeShape's matrix is rectangular, (rowMax+1) x (colMax+1). */
  lemma ClumpShapeDims(ns: seq<ClumpNode>)
    ensures |ClumpShape(ns)| == MaxRow(Relative(ns)) + 1
    ensures forall r :: 0 <= r < |ClumpShape(ns)| ==> |ClumpShape(ns)[r]| == MaxCol(Relative(ns)) + 1
  {
  }

  /** computeShape's bounding box is tight: some node is in the shape's first
      row, some in its last row, some in its first and some in its last
      column, and the top-left is on the board. */
  lemma BoxIsTight(ns: seq<ClumpNode>)
    requires WellFormed(ns)
    ensures 0 <= BoxTopLeft(ns).row && 0 <= BoxTopLeft(ns).col
    ensures exists i :: 0 <= i < |ns| && ns[i].row == BoxTopLeft(ns).row
    ensures exists i :: 0 <= i < |ns| && ns[i].col == BoxTopLeft(ns).col
    ensures exists i :: 0 <= i < |ns| && ns[i].row - BoxTopLeft(ns).row == |ClumpShape(ns)| - 1
    ensures exists i :: 0 <= i < |ns| && ns[i].col - BoxTopLeft(ns).col == |ClumpShape(ns)[0]| - 1
  {
    var rel := Relative(ns);
    MinRowSpec(ns);
    MinColSpec(ns);
    MaxRowSpec(rel);
    MaxColSpec(rel);
    ClumpShapeDims(ns);
    assert OnBoard(ns[0]);
    if MinRow(ns) == Rows - 1 {
      assert ns[0].row == MinRow(ns);
    }
    if MinCol(ns) == Cols - 1 {
      assert ns[0].col == MinCol(ns);
    }
    var a :| 0 <= a < |ns| && ns[a].row == MinRow(ns);
    var b :| 0 <= b < |ns| && ns[b].col == MinCol(ns);
    if MaxRow(rel) == 0 {
      assert rel[a].row == 0;
    }
    if MaxCol(rel) == 0 {
      assert rel[b].col == 0;
    }
  }

  /** Each node's colour sits at the node's position in computeShape's matrix. */
  lemma ClumpShapeAtNode(ns: seq<ClumpNode>, i: int)
    requires Distinct(ns) && 0 <= i < |ns|
    ensures var s := ClumpShape(ns);
            var p := BoxTopLeft(ns);
            0 <= ns[i].row - p.row < |s| && 0 <= ns[i].col - p.col < |s[ns[i].row - p.row]| &&
            s[ns[i].row - p.row][ns[i].col - p.col] == ns[i].val
  {
    var rel := Relative(ns);
    var p := BoxTopLeft(ns);
    RelativeInside(ns);
    ShiftDistinct(ns, p.row, p.col);
    assert rel[i] == ShiftNode(ns[i], p.row, p.col);
    PaintCell(BoxShape(ns), rel, rel[i].row, rel[i].col);
    LastAtNode(rel, i, 0);
  }

  /** Any entry of computeShape's matrix where the clump has no node is 0. */
  lemma ClumpShapeOffNode(ns: seq<ClumpNode>, r: int, c: int)
    requires 0 <= r < |ClumpShape(ns)| && 0 <= c < |ClumpShape(ns)[r]|
    requires forall i :: 0 <= i < |ns| ==> PosOf(ns[i]) != Pos(BoxTopLeft(ns).row + r, BoxTopLeft(ns).col + c)
    ensures ClumpShape(ns)[r][c] == 0
  {
    var rel := Relative(ns);
    var p := BoxTopLeft(ns);
    RelativeInside(ns);
    forall i | 0 <= i < |rel| ensures PosOf(rel[i]) != Pos(r, c) {
      assert rel[i] == ShiftNode(ns[i], p.row, p.col);
      assert PosOf(ns[i]) != Pos(p.row + r, p.col + c);
    }
    PaintCell(BoxShape(ns), rel, r, c);
    LastAtNone(rel, r, c, 0);
  }

  /** A non-zero entry of computeShape's matrix is a node of the clump. */
  lemma ClumpShapeCovers(ns: seq<ClumpNode>, r: int, c: int)
    requires Covers(ClumpShape(ns), r, c)
    ensures exists i :: 0 <= i < |ns| && PosOf(ns[i]) == Pos(BoxTopLeft(ns).row + r, BoxTopLeft(ns).col + c)
  {
    if forall i :: 0 <= i < |ns| ==> PosOf(ns[i]) != Pos(BoxTopLeft(ns).row + r, BoxTopLeft(ns).col + c) {
      ClumpShapeOffNode(ns, r, c);
    }
  }

  /** The fragment made of a clump lies on the board and has a cell. */
  lemma ClumpShapePlaced(ns: seq<ClumpNode>)
    requires WellFormed(ns)
    ensures Placed(ClumpShape(ns), BoxTopLeft(ns))
    ensures HasCell(ClumpShape(ns))
  {
    var s := ClumpShape(ns);
    var p := BoxTopLeft(ns);
    BoxIsTight(ns);
    forall r, c | 0 <= r < |s| && 0 <= c < |s[r]| && s[r][c] != 0
      ensures p.row + r < Rows && 0 <= p.col + c < Cols
    {
      ClumpShapeCovers(ns, r, c);
      var i :| 0 <= i < |ns| && PosOf(ns[i]) == Pos(p.row + r, p.col + c);
      assert OnBoard(ns[i]);
    }
    ClumpShapeAtNode(ns, 0);
    assert s[ns[0].row - p.row][ns[0].col - p.col] == ns[0].val;
  }

  // ---------------------------------------------------------------------------
  // The four loops of computeShape
  // ---------------------------------------------------------------------------

  /** First loop: the least row and column, starting from 15 and 9. */
  method FindMins(nodes: seq<ClumpNode>) returns (rowMin: int, colMin: int)
    ensures rowMin == MinRow(nodes) && colMin == MinCol(nodes)
  {
    rowMin, colMin := Rows - 1, Cols - 1;
    var i := 0;
    while i < |nodes|
      invariant 0 <= i <= |nodes|
      invariant rowMin == MinRow(nodes[..i]) && colMin == MinCol(nodes[..i])
    {
      assert nodes[..i + 1][..i] == nodes[..i];
      if nodes[i].row < rowMin {
        rowMin := nodes[i].row;
      }
      if nodes[i].col < colMin {
        colMin := nodes[i].col;
      }
      i := i + 1;
    }
    assert nodes[..i] == nodes;
  }

  /** Second loop: every node made relative to (rowMin, colMin), and the
      greatest relative row and column, starting from 0. */
  method MakeRelative(nodes: seq<ClumpNode>, rowMin: int, colMin: int)
      returns (rel: seq<ClumpNode>, rowMax: int, colMax: int)
    ensures rel == Shift(nodes, rowMin, colMin)
    ensures rowMax == MaxRow(rel) && colMax == MaxCol(rel)
  {
    ghost var target := Shift(nodes, rowMin, colMin);
    rel := nodes;
    rowMax, colMax := 0, 0;
    var i := 0;
    while i < |rel|
      invariant 0 <= i <= |rel| == |nodes|
      invariant forall j :: 0 <= j < |nodes| ==> rel[j] == if j < i then target[j] else nodes[j]
      invariant rowMax == MaxRow(target[..i]) && colMax == MaxCol(target[..i])
    {
      assert target[..i + 1][..i] == target[..i];
      rel := rel[i := rel[i].(row := rel[i].row - rowMin)];
      if rel[i].row > rowMax {
        rowMax := rel[i].row;
      }
      rel := rel[i := rel[i].(col := rel[i].col - colMin)];
      if rel[i].col > colMax {
        colMax := rel[i].col;
      }
      i := i + 1;
    }
    assert rel == target;
    assert target[..i] == target;
  }

  /** Third loop: a (rowMax+1) x (colMax+1) matrix of zeros, row by row. */
  method MakeZeros(rowMax: int, colMax: int) returns (shape: Matrix)
    requires 0 <= rowMax && 0 <= colMax
    ensures shape == ZeroMatrix(rowMax + 1, colMax + 1)
  {
    shape := [];
    var r := 0;
    while r <= rowMax
      invariant 0 <= r <= rowMax + 1
      invariant shape == ZeroMatrix(r, colMax + 1)
    {
      var tmp := [];
      var c := 0;
      while c <= colMax
        invariant 0 <= c <= colMax + 1
        invariant tmp == seq(c, _ => 0)
      {
        tmp := tmp + [0];
        c := c + 1;
      }
      shape := shape + [tmp];
      r := r + 1;
    }
  }

  /** Fourth loop: each node's colour written at its position, in node order. */
  method PaintNodes(z: Matrix, nodes: seq<ClumpNode>) returns (shape: Matrix)
    requires Inside(z, nodes)
    ensures shape == Paint(z, nodes)
  {
    shape := z;
    var i := 0;
    while i < |nodes|
      invariant 0 <= i <= |nodes|
      invariant Inside(z, nodes[..i])
      invariant shape == Paint(z, nodes[..i])
    {
      assert nodes[..i + 1][..i] == nodes[..i];
      shape := shape[nodes[i].row := shape[nodes[i].row][nodes[i].col := nodes[i].val]];
      i := i + 1;
    }
    assert nodes[..i] == nodes;
  }

  // ---------------------------------------------------------------------------
  // The Clump object
  // ---------------------------------------------------------------------------

  /** A clump under construction: the seed position on lastRowRemoved, the
      top-left computeShape records, and the taken nodes. */
  class Clump {
    var row: int
    var col: int
    var topLeft: Pos
    var matrix: seq<ClumpNode>

    constructor(row: int, col: int)
      ensures this.row == row && this.col == col
      ensures topLeft == Pos(0, 0) && matrix == []
    {
      this.row := row;
      this.col := col;
      topLeft := Pos(0, 0);
      matrix := [];
    }

    /** Clump.prototype.addNode: append a taken node. */
    method AddNode(node: ClumpNode)
      modifies this
      ensures matrix == old(matrix) + [node]
      ensures row == old(row) && col == old(col) && topLeft == old(topLeft)
    {
      matrix := matrix + [node];
    }

    /** Clump.prototype.size: the number of taken nodes. */
    function Size(): (n: nat)
      reads this
      ensures n == 0 <==> matrix == []
    {
      |matrix|
    }

    /** Clump.prototype.computeShape: records the bounding box's top-left,
        makes the nodes relative to it and returns the box filled with the
        nodes' colours. */
    method ComputeShape() returns (shape: Matrix)
      modifies this
      ensures shape == ClumpShape(old(matrix))
      ensures topLeft == BoxTopLeft(old(matrix))
      ensures matrix == Relative(old(matrix))
      ensures row == old(row) && col == old(col)
    {
      ghost var m0 := matrix;
      var rowMin, colMin := FindMins(matrix);
      var rel, rowMax, colMax := MakeRelative(matrix, rowMin, colMin);
      assert rel == Relative(m0);
      MaxRowSpec(rel);
      MaxColSpec(rel);
      var z := MakeZeros(rowMax, colMax);
      assert z == BoxShape(m0);
      RelativeInside(m0);
      shape := PaintNodes(z, rel);
      assert shape == ClumpShape(m0);
      matrix := rel;
      topLeft := Pos(rowMin, colMin);
    }
  }
}
