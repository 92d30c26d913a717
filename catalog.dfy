/** The two fixed tables of Tet.js (shapes by type and rotation, perimeter
    outlines by 0/1 shape) and the lookups that read them. */
module Catalog {

  /** A shape matrix: rows of cell colours, possibly of different lengths; 0 is empty. */
  type Matrix = seq<seq<int>>

  /** Cell (r, c) exists in `s` and is non-zero. */
  predicate Covers(s: Matrix, r: int, c: int)
  {
    0 <= r < |s| && 0 <= c < |s[r]| && s[r][c] != 0
  }

  // ---------------------------------------------------------------------------
  // Shapes
  // ---------------------------------------------------------------------------

  /** Variants of each piece type I, J, L, O, S, T, Z (types 0..6);
      the cells of type t are coloured t + 1. */
  const ShapeTable: seq<seq<Matrix>> := [
    [ [[1,1,1,1]], [[1],[1],[1],[1]] ],
    [ [[2,2,2],[0,0,2]], [[0,2],[0,2],[2,2]], [[2],[2,2,2]], [[2,2],[2],[2]] ],
    [ [[3,3,3],[3]], [[3,3],[0,3],[0,3]], [[0,0,3],[3,3,3]], [[3],[3],[3,3]] ],
    [ [[4,4],[4,4]] ],
    [ [[0,5,5],[5,5]], [[5],[5,5],[0,5]] ],
    [ [[6,6,6],[0,6]], [[0,6],[6,6],[0,6]], [[0,6],[6,6,6]], [[6],[6,6],[6]] ],
    [ [[7,7],[0,7,7]], [[0,7],[7,7],[7]] ]
  ]

  /** The shape of a piece of type `kind` at rotation `rotation`: the only
      variant for a one-variant type, variant `rotation % 2` for a two-variant
      type, variant `rotation` for a four-variant type. The table has no other
      variant count, so the empty fallback is never taken. */
  function ShapeMatrix(kind: int, rotation: int): (s: Matrix)
    requires 0 <= kind < |ShapeTable|
    requires 0 <= rotation < 4
    ensures s in ShapeTable[kind]
  {
    var m := ShapeTable[kind];
    if |m| == 1 then m[0]
    else if |m| == 2 then m[rotation % 2]
    else if |m| == 4 then m[rotation]
    else []
  }

  /** Number of non-zero cells of `row` from index `i` on. */
  function RowCells(row: seq<int>, i: nat): nat
    decreases |row| - i
  {
    if i >= |row| then 0 else (if row[i] != 0 then 1 else 0) + RowCells(row, i + 1)
  }

  /** Number of non-zero cells of the rows of `s` from index `i` on. */
  function CellCount(s: Matrix, i: nat): nat
    decreases |s| - i
  {
    if i >= |s| then 0 else RowCells(s[i], 0) + CellCount(s, i + 1)
  }

  /** Every non-zero cell of `row` from index `i` on is `color`. */
  predicate RowIn(row: seq<int>, color: int, i: nat)
    decreases |row| - i
  {
    i >= |row| || (row[i] in {0, color} && RowIn(row, color, i + 1))
  }

  /** Every row of `s` from index `i` on is non-empty, at most 4 long, and coloured `color`. */
  predicate RowsIn(s: Matrix, color: int, i: nat)
    decreases |s| - i
  {
    i >= |s| || (0 < |s[i]| <= 4 && RowIn(s[i], color, 0) && RowsIn(s, color, i + 1))
  }

  /** `s` is a tetromino drawn in colour `color`: at most 4 by 4, no empty
      row, exactly four non-zero cells, all of them `color`. */
  predicate IsTetromino(s: Matrix, color: int)
  {
    0 < |s| <= 4 && RowsIn(s, color, 0) && CellCount(s, 0) == 4
  }

  lemma {:induction false} RowInAt(row: seq<int>, color: int, i: nat, c: int)
    requires RowIn(row, color, i) && i <= c < |row| && row[c] != 0
    ensures row[c] == color
    decreases c - i
  {
    if i < c {
      RowInAt(row, color, i + 1, c);
    }
  }

  lemma {:induction false} RowsInAt(s: Matrix, color: int, i: nat, r: int)
    requires RowsIn(s, color, i) && i <= r < |s|
    ensures 0 < |s[r]| <= 4 && RowIn(s[r], color, 0)
    decreases r - i
  {
    if i < r {
      RowsInAt(s, color, i + 1, r);
    }
  }

  /** Cell-by-cell reading of IsTetromino. */
  lemma TetrominoCells(s: Matrix, color: int)
    requires IsTetromino(s, color)
    ensures forall r :: 0 <= r < |s| ==> 0 < |s[r]| <= 4
    ensures forall r, c :: Covers(s, r, c) ==> s[r][c] == color
  {
    forall r | 0 <= r < |s| ensures 0 < |s[r]| <= 4 {
      RowsInAt(s, color, 0, r);
    }
    forall r, c | Covers(s, r, c) ensures s[r][c] == color {
      RowsInAt(s, color, 0, r);
      RowInAt(s[r], color, 0, c);
    }
  }

  /** Every type and rotation gives a non-empty shape of four cells of colour type + 1. */
  lemma ShapeMatrixIsTetromino(kind: int, rotation: int)
    requires 0 <= kind < |ShapeTable| && 0 <= rotation < 4
    ensures IsTetromino(ShapeMatrix(kind, rotation), kind + 1)
  {
    var m := ShapeTable[kind];
    var v := if |m| == 1 then 0 else if |m| == 2 then rotation % 2 else rotation;
    assert ShapeMatrix(kind, rotation) == m[v];
    VariantIsTetromino(kind, v);
  }

  lemma VariantIsTetromino(kind: int, v: int)
    requires 0 <= kind < |ShapeTable| && 0 <= v < |ShapeTable[kind]|
    ensures IsTetromino(ShapeTable[kind][v], kind + 1)
  {
    if kind == 0 {
      IIsTetromino(v);
    } else if kind == 1 {
      JIsTetromino(v);
    } else if kind == 2 {
      LIsTetromino(v);
    } else if kind == 3 {
      OIsTetromino(v);
    } else if kind == 4 {
      SIsTetromino(v);
    } else if kind == 5 {
      TIsTetromino(v);
    } else if kind == 6 {
      ZIsTetromino(v);
    }
  }

  lemma IIsTetromino(v: int)
    requires 0 <= v < |ShapeTable[0]|
    ensures IsTetromino(ShapeTable[0][v], 1)
  {
    if v == 0 {
      assert ShapeTable[0][v] == [[1,1,1,1]];
    } else {
      assert ShapeTable[0][v] == [[1],[1],[1],[1]];
    }
  }

  lemma JIsTetromino(v: int)
    requires 0 <= v < |ShapeTable[1]|
    ensures IsTetromino(ShapeTable[1][v], 2)
  {
    if v == 0 {
      assert ShapeTable[1][v] == [[2,2,2],[0,0,2]];
    } else if v == 1 {
      assert ShapeTable[1][v] == [[0,2],[0,2],[2,2]];
    } else if v == 2 {
      assert ShapeTable[1][v] == [[2],[2,2,2]];
    } else {
      assert ShapeTable[1][v] == [[2,2],[2],[2]];
    }
  }

  lemma LIsTetromino(v: int)
    requires 0 <= v < |ShapeTable[2]|
    ensures IsTetromino(ShapeTable[2][v], 3)
  {
    if v == 0 {
      assert ShapeTable[2][v] == [[3,3,3],[3]];
    } else if v == 1 {
      assert ShapeTable[2][v] == [[3,3],[0,3],[0,3]];
    } else if v == 2 {
      assert ShapeTable[2][v] == [[0,0,3],[3,3,3]];
    } else {
      assert ShapeTable[2][v] == [[3],[3],[3,3]];
    }
  }

  lemma OIsTetromino(v: int)
    requires 0 <= v < |ShapeTable[3]|
    ensures IsTetromino(ShapeTable[3][v], 4)
  {
    assert ShapeTable[3][v] == [[4,4],[4,4]];
  }

  lemma SIsTetromino(v: int)
    requires 0 <= v < |ShapeTable[4]|
    ensures IsTetromino(ShapeTable[4][v], 5)
  {
    if v == 0 {
      assert ShapeTable[4][v] == [[0,5,5],[5,5]];
    } else {
      assert ShapeTable[4][v] == [[5],[5,5],[0,5]];
    }
  }

  lemma TIsTetromino(v: int)
    requires 0 <= v < |ShapeTable[5]|
    ensures IsTetromino(ShapeTable[5][v], 6)
  {
    if v == 0 {
      assert ShapeTable[5][v] == [[6,6,6],[0,6]];
    } else if v == 1 {
      assert ShapeTable[5][v] == [[0,6],[6,6],[0,6]];
    } else if v == 2 {
      assert ShapeTable[5][v] == [[0,6],[6,6,6]];
    } else {
      assert ShapeTable[5][v] == [[6],[6,6],[6]];
    }
  }

  lemma ZIsTetromino(v: int)
    requires 0 <= v < |ShapeTable[6]|
    ensures IsTetromino(ShapeTable[6][v], 7)
  {
    if v == 0 {
      assert ShapeTable[6][v] == [[7,7],[0,7,7]];
    } else {
      assert ShapeTable[6][v] == [[0,7],[7,7],[7]];
    }
  }
}
