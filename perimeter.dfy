/** Perimeter outlines: Tet.prototype.getPeriMatrix looks up the outline
    polygon of a shape in a fixed table keyed by 0/1 shape matrices. */
module Perimeter {
  import opened Catalog

  /** One row of the table: a 0/1 key shape and its outline, a list of
      [x, y] corners in block units. */
  datatype PeriEntry = PeriEntry(key: Matrix, outline: Matrix)

  /** The outline table, in scan order: fragments of one to three blocks,
      then every tetromino orientation. Copied as it stands (the entry at
      index 13 is not a closed outline of its key; outlines are data here). */
  const PeriTable: seq<PeriEntry> := [
    PeriEntry([[1]],               [[0,0],[0,1],[1,1],[1,0]]),
    PeriEntry([[1,1]],             [[0,0],[0,1],[2,1],[2,0]]),
    PeriEntry([[1],[1]],           [[0,0],[0,2],[1,2],[1,0]]),
    PeriEntry([[1,1,1]],           [[0,0],[0,1],[3,1],[3,0]]),
    PeriEntry([[1],[1],[1]],       [[0,0],[0,3],[1,3],[1,0]]),
    PeriEntry([[1,1],[0,1]],       [[0,0],[0,1],[1,1],[1,2],[2,2],[2,0]]),
    PeriEntry([[0,1],[1,1]],       [[1,0],[1,1],[0,1],[0,2],[2,2],[2,0]]),
    PeriEntry([[1],[1,1]],         [[0,0],[0,2],[2,2],[2,1],[1,1],[1,0]]),
    PeriEntry([[1,1],[1]],         [[0,0],[0,2],[1,2],[1,1],[2,1],[2,0]]),
    PeriEntry([[1,1,1,1]],         [[0,0],[0,1],[4,1],[4,0]]),
    PeriEntry([[1],[1],[1],[1]],   [[0,0],[0,4],[1,4],[1,0]]),
    PeriEntry([[1,1,1],[0,0,1]],   [[0,0],[0,1],[2,1],[2,2],[3,2],[3,0]]),
    PeriEntry([[0,1],[0,1],[1,1]], [[1,0],[1,2],[0,2],[0,3],[2,3],[2,0]]),
    PeriEntry([[1],[1,1,1]],       [[0,0],[0,2],[3,2],[3,1],[1,1],[0,1]]),
    PeriEntry([[1,1],[1],[1]],     [[0,0],[0,3],[1,3],[1,1],[2,1],[2,0]]),
    PeriEntry([[1,1,1],[1]],       [[0,0],[0,2],[1,2],[1,1],[3,1],[3,0]]),
    PeriEntry([[1,1],[0,1],[0,1]], [[0,0],[0,1],[1,1],[1,3],[2,3],[2,0]]),
    PeriEntry([[0,0,1],[1,1,1]],   [[2,0],[2,1],[0,1],[0,2],[3,2],[3,0]]),
    PeriEntry([[1],[1],[1,1]],     [[0,0],[0,3],[2,3],[2,2],[1,2],[1,0]]),
    PeriEntry([[1,1],[1,1]],       [[0,0],[0,2],[2,2],[2,0]]),
    PeriEntry([[0,1,1],[1,1]],     [[1,0],[1,1],[0,1],[0,2],[2,2],[2,1],[3,1],[3,0]]),
    PeriEntry([[1],[1,1],[0,1]],   [[0,0],[0,2],[1,2],[1,3],[2,3],[2,1],[1,1],[1,0]]),
    PeriEntry([[1,1,1],[0,1]],     [[0,0],[0,1],[1,1],[1,2],[2,2],[2,1],[3,1],[3,0]]),
    PeriEntry([[0,1],[1,1],[0,1]], [[1,0],[1,1],[0,1],[0,2],[1,2],[1,3],[2,3],[2,0]]),
    PeriEntry([[0,1],[1,1,1]],     [[1,0],[1,1],[0,1],[0,2],[3,2],[3,1],[2,1],[2,0]]),
    PeriEntry([[1],[1,1],[1]],     [[0,0],[0,3],[1,3],[1,2],[2,2],[2,1],[1,1],[1,0]]),
    PeriEntry([[1,1],[0,1,1]],     [[0,0],[0,1],[1,1],[1,2],[3,2],[3,1],[2,1],[2,0]]),
    PeriEntry([[0,1],[1,1],[1]],   [[1,0],[1,1],[0,1],[0,3],[1,3],[1,2],[2,2],[2,0]])
  ]

  /** The normalised copy of `row` from index `i` on: every positive cell
      becomes 1, every other cell is kept. */
  function NormalizeRow(row: seq<int>, i: nat): seq<int>
    decreases |row| - i
  {
    if i >= |row| then [] else [if row[i] > 0 then 1 else row[i]] + NormalizeRow(row, i + 1)
  }

  /** The normalised copy of the rows of `s` from index `i` on. */
  function NormalizeRows(s: Matrix, i: nat): Matrix
    decreases |s| - i
  {
    if i >= |s| then [] else [NormalizeRow(s[i], 0)] + NormalizeRows(s, i + 1)
  }

  /** The normalised copy of a shape that the lookup compares with the keys. */
  function Normalize(s: Matrix): Matrix
  {
    NormalizeRows(s, 0)
  }

  lemma {:induction false} NormalizeRowCells(row: seq<int>, i: nat)
    requires i <= |row|
    ensures |NormalizeRow(row, i)| == |row| - i
    ensures forall c :: 0 <= c < |row| - i ==> NormalizeRow(row, i)[c] == (if row[i + c] > 0 then 1 else row[i + c])
    decreases |row| - i
  {
    if i < |row| {
      NormalizeRowCells(row, i + 1);
      var tail := NormalizeRow(row, i + 1);
      assert NormalizeRow(row, i) == [if row[i] > 0 then 1 else row[i]] + tail;
      forall c | 1 <= c < |row| - i
        ensures NormalizeRow(row, i)[c] == (if row[i + c] > 0 then 1 else row[i + c])
      {
        assert NormalizeRow(row, i)[c] == tail[c - 1];
      }
    }
  }

  lemma {:induction false} NormalizeRowsCells(s: Matrix, i: nat)
    requires i <= |s|
    ensures |NormalizeRows(s, i)| == |s| - i
    ensures forall r :: 0 <= r < |s| - i ==> NormalizeRows(s, i)[r] == NormalizeRow(s[i + r], 0)
    decreases |s| - i
  {
    if i < |s| {
      NormalizeRowsCells(s, i + 1);
      var tail := NormalizeRows(s, i + 1);
      assert NormalizeRows(s, i) == [NormalizeRow(s[i], 0)] + tail;
      forall r | 1 <= r < |s| - i ensures NormalizeRows(s, i)[r] == NormalizeRow(s[i + r], 0) {
        assert NormalizeRows(s, i)[r] == tail[r - 1];
      }
    }
  }

  /** Normalising keeps the dimensions, turns every positive cell into 1 and
      keeps every other cell; so a shape without negative cells becomes its
      0/1 mask. */
  lemma NormalizeCells(s: Matrix)
    ensures var n := Normalize(s);
            |n| == |s| && (forall r :: 0 <= r < |s| ==> |n[r]| == |s[r]|) &&
            (forall r, c :: 0 <= r < |s| && 0 <= c < |s[r]| && s[r][c] > 0 ==> n[r][c] == 1) &&
            (forall r, c :: 0 <= r < |s| && 0 <= c < |s[r]| && s[r][c] <= 0 ==> n[r][c] == s[r][c])
  {
    NormalizeRowsCells(s, 0);
    forall r | 0 <= r < |s| {
      NormalizeRowCells(s[r], 0);
    }
  }

  /** The column loop of the scan accepts row `r`: it never runs on an empty
      row; otherwise it demands the key row's length, then equal values. */
  predicate RowAccepted(n: Matrix, key: Matrix, r: int)
    requires 0 <= r < |n| == |key|
  {
    |n[r]| == 0 || n[r] == key[r]
  }

  /** The row loop of the scan accepts rows `r..` of `n` against `key`. */
  predicate RowsAccepted(n: Matrix, key: Matrix, r: nat)
    requires |n| == |key|
    decreases |n| - r
  {
    r >= |n| || (RowAccepted(n, key, r) && RowsAccepted(n, key, r + 1))
  }

  /** The scan accepts `key` for `n`: the row loop never runs on an empty
      shape; otherwise it demands the key's row count, then every row. */
  predicate KeyMatches(n: Matrix, key: Matrix)
  {
    |n| == 0 || (|n| == |key| && RowsAccepted(n, key, 0))
  }

  /** Index of the first table entry at or after `i` whose key the scan
      accepts for `n`, or -1 when there is none. */
  function FirstMatch(n: Matrix, i: nat): (k: int)
    requires i <= |PeriTable|
    ensures -1 <= k < |PeriTable|
    ensures k >= 0 ==> i <= k && KeyMatches(n, PeriTable[k].key)
    ensures k >= 0 ==> forall j :: i <= j < k ==> !KeyMatches(n, PeriTable[j].key)
    ensures k < 0 <==> forall j :: i <= j < |PeriTable| ==> !KeyMatches(n, PeriTable[j].key)
    decreases |PeriTable| - i
  {
    if i == |PeriTable| then -1
    else if KeyMatches(n, PeriTable[i].key) then i
    else FirstMatch(n, i + 1)
  }

  /** Tet.prototype.getPeriMatrix on a piece whose shape is `s`. */
  function PerimeterOf(s: Matrix): Matrix
  {
    var k := FirstMatch(Normalize(s), 0);
    if k < 0 then [] else PeriTable[k].outline
  }

  lemma OutlinesNonEmpty()
    ensures forall j :: 0 <= j < |PeriTable| ==> PeriTable[j].outline != []
  {
  }

  /** The lookup yields the outline of the first entry whose key the scan
      accepts for the normalised shape, and [] exactly when no key is accepted. */
  lemma PerimeterOfSpec(s: Matrix)
    ensures var n := Normalize(s);
            (PerimeterOf(s) == [] <==> forall j :: 0 <= j < |PeriTable| ==> !KeyMatches(n, PeriTable[j].key)) &&
            forall k :: 0 <= k < |PeriTable| && KeyMatches(n, PeriTable[k].key) &&
                        (forall j :: 0 <= j < k ==> !KeyMatches(n, PeriTable[j].key)) ==>
                        PerimeterOf(s) == PeriTable[k].outline
  {
    OutlinesNonEmpty();
    var n := Normalize(s);
    var f := FirstMatch(n, 0);
    forall k | 0 <= k < |PeriTable| && KeyMatches(n, PeriTable[k].key) &&
               (forall j :: 0 <= j < k ==> !KeyMatches(n, PeriTable[j].key))
      ensures PerimeterOf(s) == PeriTable[k].outline
    {
      assert f >= 0;
      assert !(f < k);
      assert !(k < f);
    }
  }

  lemma {:induction false} RowsAcceptedAll(n: Matrix, key: Matrix, r: nat)
    requires |n| == |key|
    ensures RowsAccepted(n, key, r) <==> forall j :: r <= j < |n| ==> RowAccepted(n, key, j)
    decreases |n| - r
  {
    if r < |n| {
      RowsAcceptedAll(n, key, r + 1);
    }
  }

  /** On a shape with at least one row and no empty row, the scan accepts a
      key exactly when it is equal to the shape (same row count, same row
      lengths, same values). */
  lemma KeyMatchesIsEquality(n: Matrix, key: Matrix)
    requires |n| > 0 && forall r :: 0 <= r < |n| ==> |n[r]| > 0
    ensures KeyMatches(n, key) <==> n == key
  {
    if |n| == |key| {
      RowsAcceptedAll(n, key, 0);
      if RowsAccepted(n, key, 0) {
        assert forall j :: 0 <= j < |n| ==> n[j] == key[j] by {
          forall j | 0 <= j < |n| ensures n[j] == key[j] {
            assert RowAccepted(n, key, j);
          }
        }
      }
    }
  }

  /** The empty shape is accepted by the first key, so it gets the one-block outline. */
  lemma EmptyShapeGetsFirstOutline()
    ensures PerimeterOf([]) == PeriTable[0].outline
  {
  }

  /** A shape with an empty row is accepted by a key with the same row count
      whatever that key's row holds: the column loop never runs on the empty row. */
  lemma EmptyRowIsNotChecked()
    ensures PerimeterOf([[]]) == PeriTable[0].outline
  {
    var n := Normalize([[]]);
    assert n[0] == [];
    assert KeyMatches(n, PeriTable[0].key);
  }

  /** Every catalog shape finds a non-empty outline, that of the entry whose
      key is its normalised shape. */
  lemma CatalogPerimeterFound(kind: int, rotation: int)
    requires 0 <= kind < |ShapeTable| && 0 <= rotation < 4
    ensures var s := ShapeMatrix(kind, rotation);
            var k := FirstMatch(Normalize(s), 0);
            0 <= k && PeriTable[k].key == Normalize(s) && PerimeterOf(s) == PeriTable[k].outline != []
  {
    var s := ShapeMatrix(kind, rotation);
    var n := Normalize(s);
    ShapeMatrixIsTetromino(kind, rotation);
    TetrominoCells(s, kind + 1);
    NormalizeCells(s);
    CatalogKey(kind, if |ShapeTable[kind]| == 1 then 0 else if |ShapeTable[kind]| == 2 then rotation % 2 else rotation);
    var j :| 0 <= j < |PeriTable| && PeriTable[j].key == n;
    KeyMatchesIsEquality(n, PeriTable[j].key);
    var k := FirstMatch(n, 0);
    KeyMatchesIsEquality(n, PeriTable[k].key);
    OutlinesNonEmpty();
  }

  /** The normalised form of every catalog shape is a key of the table. */
  lemma CatalogKey(k: int, v: int)
    requires 0 <= k < |ShapeTable| && 0 <= v < |ShapeTable[k]|
    ensures exists j :: 0 <= j < |PeriTable| && PeriTable[j].key == Normalize(ShapeTable[k][v])
  {
    if k == 0 {
      IKeys(v);
    } else if k == 1 {
      JKeys(v);
    } else if k == 2 {
      LKeys(v);
    } else if k == 3 {
      OKeys(v);
    } else if k == 4 {
      SKeys(v);
    } else if k == 5 {
      TKeys(v);
    } else if k == 6 {
      ZKeys(v);
    }
  }

  lemma IKeys(v: int)
    requires 0 <= v < |ShapeTable[0]|
    ensures exists j :: 0 <= j < |PeriTable| && PeriTable[j].key == Normalize(ShapeTable[0][v])
  {
    if v == 0 {
      IKey0();
    } else {
      IKey1();
    }
  }

  lemma IKey0()
    ensures PeriTable[9].key == Normalize(ShapeTable[0][0])
  {
    assert ShapeTable[0][0] == [[1,1,1,1]];
    NormalizesToI0();
    assert PeriTable[9].key == [[1,1,1,1]];
  }

  lemma IKey1()
    ensures PeriTable[10].key == Normalize(ShapeTable[0][1])
  {
    assert ShapeTable[0][1] == [[1],[1],[1],[1]];
    NormalizesToI1();
    assert PeriTable[10].key == [[1],[1],[1],[1]];
  }

  lemma JKeys(v: int)
    requires 0 <= v < |ShapeTable[1]|
    ensures exists j :: 0 <= j < |PeriTable| && PeriTable[j].key == Normalize(ShapeTable[1][v])
  {
    if v == 0 {
      JKey0();
    } else if v == 1 {
      JKey1();
    } else if v == 2 {
      JKey2();
    } else {
      JKey3();
    }
  }

  lemma JKey0()
    ensures PeriTable[11].key == Normalize(ShapeTable[1][0])
  {
    assert ShapeTable[1][0] == [[2,2,2],[0,0,2]];
    NormalizesToJ0();
    assert PeriTable[11].key == [[1,1,1],[0,0,1]];
  }

  lemma JKey1()
    ensures PeriTable[12].key == Normalize(ShapeTable[1][1])
  {
    assert ShapeTable[1][1] == [[0,2],[0,2],[2,2]];
    NormalizesToJ1();
    assert PeriTable[12].key == [[0,1],[0,1],[1,1]];
  }

  lemma JKey2()
    ensures PeriTable[13].key == Normalize(ShapeTable[1][2])
  {
    assert ShapeTable[1][2] == [[2],[2,2,2]];
    NormalizesToJ2();
    assert PeriTable[13].key == [[1],[1,1,1]];
  }

  lemma JKey3()
    ensures PeriTable[14].key == Normalize(ShapeTable[1][3])
  {
    assert ShapeTable[1][3] == [[2,2],[2],[2]];
    NormalizesToJ3();
    assert PeriTable[14].key == [[1,1],[1],[1]];
  }

  lemma LKeys(v: int)
    requires 0 <= v < |ShapeTable[2]|
    ensures exists j :: 0 <= j < |PeriTable| && PeriTable[j].key == Normalize(ShapeTable[2][v])
  {
    if v == 0 {
      LKey0();
    } else if v == 1 {
      LKey1();
    } else if v == 2 {
      LKey2();
    } else {
      LKey3();
    }
  }

  lemma LKey0()
    ensures PeriTable[15].key == Normalize(ShapeTable[2][0])
  {
    assert ShapeTable[2][0] == [[3,3,3],[3]];
    NormalizesToL0();
    assert PeriTable[15].key == [[1,1,1],[1]];
  }

  lemma LKey1()
    ensures PeriTable[16].key == Normalize(ShapeTable[2][1])
  {
    assert ShapeTable[2][1] == [[3,3],[0,3],[0,3]];
    NormalizesToL1();
    assert PeriTable[16].key == [[1,1],[0,1],[0,1]];
  }

  lemma LKey2()
    ensures PeriTable[17].key == Normalize(ShapeTable[2][2])
  {
    assert ShapeTable[2][2] == [[0,0,3],[3,3,3]];
    NormalizesToL2();
    assert PeriTable[17].key == [[0,0,1],[1,1,1]];
  }

  lemma LKey3()
    ensures PeriTable[18].key == Normalize(ShapeTable[2][3])
  {
    assert ShapeTable[2][3] == [[3],[3],[3,3]];
    NormalizesToL3();
    assert PeriTable[18].key == [[1],[1],[1,1]];
  }

  lemma OKeys(v: int)
    requires 0 <= v < |ShapeTable[3]|
    ensures exists j :: 0 <= j < |PeriTable| && PeriTable[j].key == Normalize(ShapeTable[3][v])
  {
    OKey0();
  }

  lemma OKey0()
    ensures PeriTable[19].key == Normalize(ShapeTable[3][0])
  {
    assert ShapeTable[3][0] == [[4,4],[4,4]];
    NormalizesToO0();
    assert PeriTable[19].key == [[1,1],[1,1]];
  }

  lemma SKeys(v: int)
    requires 0 <= v < |ShapeTable[4]|
    ensures exists j :: 0 <= j < |PeriTable| && PeriTable[j].key == Normalize(ShapeTable[4][v])
  {
    if v == 0 {
      SKey0();
    } else {
      SKey1();
    }
  }

  lemma SKey0()
    ensures PeriTable[20].key == Normalize(ShapeTable[4][0])
  {
    assert ShapeTable[4][0] == [[0,5,5],[5,5]];
    NormalizesToS0();
    assert PeriTable[20].key == [[0,1,1],[1,1]];
  }

  lemma SKey1()
    ensures PeriTable[21].key == Normalize(ShapeTable[4][1])
  {
    assert ShapeTable[4][1] == [[5],[5,5],[0,5]];
    NormalizesToS1();
    assert PeriTable[21].key == [[1],[1,1],[0,1]];
  }

  lemma TKeys(v: int)
    requires 0 <= v < |ShapeTable[5]|
    ensures exists j :: 0 <= j < |PeriTable| && PeriTable[j].key == Normalize(ShapeTable[5][v])
  {
    if v == 0 {
      TKey0();
    } else if v == 1 {
      TKey1();
    } else if v == 2 {
      TKey2();
    } else {
      TKey3();
    }
  }

  lemma TKey0()
    ensures PeriTable[22].key == Normalize(ShapeTable[5][0])
  {
    assert ShapeTable[5][0] == [[6,6,6],[0,6]];
    NormalizesToT0();
    assert PeriTable[22].key == [[1,1,1],[0,1]];
  }

  lemma TKey1()
    ensures PeriTable[23].key == Normalize(ShapeTable[5][1])
  {
    assert ShapeTable[5][1] == [[0,6],[6,6],[0,6]];
    NormalizesToT1();
    assert PeriTable[23].key == [[0,1],[1,1],[0,1]];
  }

  lemma TKey2()
    ensures PeriTable[24].key == Normalize(ShapeTable[5][2])
  {
    assert ShapeTable[5][2] == [[0,6],[6,6,6]];
    NormalizesToT2();
    assert PeriTable[24].key == [[0,1],[1,1,1]];
  }

  lemma TKey3()
    ensures PeriTable[25].key == Normalize(ShapeTable[5][3])
  {
    assert ShapeTable[5][3] == [[6],[6,6],[6]];
    NormalizesToT3();
    assert PeriTable[25].key == [[1],[1,1],[1]];
  }

  lemma ZKeys(v: int)
    requires 0 <= v < |ShapeTable[6]|
    ensures exists j :: 0 <= j < |PeriTable| && PeriTable[j].key == Normalize(ShapeTable[6][v])
  {
    if v == 0 {
      ZKey0();
    } else {
      ZKey1();
    }
  }

  lemma ZKey0()
    ensures PeriTable[26].key == Normalize(ShapeTable[6][0])
  {
    assert ShapeTable[6][0] == [[7,7],[0,7,7]];
    NormalizesToZ0();
    assert PeriTable[26].key == [[1,1],[0,1,1]];
  }

  lemma ZKey1()
    ensures PeriTable[27].key == Normalize(ShapeTable[6][1])
  {
    assert ShapeTable[6][1] == [[0,7],[7,7],[7]];
    NormalizesToZ1();
    assert PeriTable[27].key == [[0,1],[1,1],[1]];
  }

  lemma NormalizesToI0()
    ensures Normalize([[1,1,1,1]]) == [[1,1,1,1]]
  {
    var n := Normalize([[1,1,1,1]]);
    assert n[0] == [1,1,1,1];
  }

  lemma NormalizesToI1()
    ensures Normalize([[1],[1],[1],[1]]) == [[1],[1],[1],[1]]
  {
    var n := Normalize([[1],[1],[1],[1]]);
    assert n[0] == [1];
    assert n[1] == [1];
    assert n[2] == [1];
    assert n[3] == [1];
  }

  lemma NormalizesToJ0()
    ensures Normalize([[2,2,2],[0,0,2]]) == [[1,1,1],[0,0,1]]
  {
    var n := Normalize([[2,2,2],[0,0,2]]);
    assert n[0] == [1,1,1];
    assert n[1] == [0,0,1];
  }

  lemma NormalizesToJ1()
    ensures Normalize([[0,2],[0,2],[2,2]]) == [[0,1],[0,1],[1,1]]
  {
    var n := Normalize([[0,2],[0,2],[2,2]]);
    assert n[0] == [0,1];
    assert n[1] == [0,1];
    assert n[2] == [1,1];
  }

  lemma NormalizesToJ2()
    ensures Normalize([[2],[2,2,2]]) == [[1],[1,1,1]]
  {
    var n := Normalize([[2],[2,2,2]]);
    assert n[0] == [1];
    assert n[1] == [1,1,1];
  }

  lemma NormalizesToJ3()
    ensures Normalize([[2,2],[2],[2]]) == [[1,1],[1],[1]]
  {
    var n := Normalize([[2,2],[2],[2]]);
    assert n[0] == [1,1];
    assert n[1] == [1];
    assert n[2] == [1];
  }

  lemma NormalizesToL0()
    ensures Normalize([[3,3,3],[3]]) == [[1,1,1],[1]]
  {
    var n := Normalize([[3,3,3],[3]]);
    assert n[0] == [1,1,1];
    assert n[1] == [1];
  }

  lemma NormalizesToL1()
    ensures Normalize([[3,3],[0,3],[0,3]]) == [[1,1],[0,1],[0,1]]
  {
    var n := Normalize([[3,3],[0,3],[0,3]]);
    assert n[0] == [1,1];
    assert n[1] == [0,1];
    assert n[2] == [0,1];
  }

  lemma NormalizesToL2()
    ensures Normalize([[0,0,3],[3,3,3]]) == [[0,0,1],[1,1,1]]
  {
    var n := Normalize([[0,0,3],[3,3,3]]);
    assert n[0] == [0,0,1];
    assert n[1] == [1,1,1];
  }

  lemma NormalizesToL3()
    ensures Normalize([[3],[3],[3,3]]) == [[1],[1],[1,1]]
  {
    var n := Normalize([[3],[3],[3,3]]);
    assert n[0] == [1];
    assert n[1] == [1];
    assert n[2] == [1,1];
  }

  lemma NormalizesToO0()
    ensures Normalize([[4,4],[4,4]]) == [[1,1],[1,1]]
  {
    var n := Normalize([[4,4],[4,4]]);
    assert n[0] == [1,1];
    assert n[1] == [1,1];
  }

  lemma NormalizesToS0()
    ensures Normalize([[0,5,5],[5,5]]) == [[0,1,1],[1,1]]
  {
    var n := Normalize([[0,5,5],[5,5]]);
    assert n[0] == [0,1,1];
    assert n[1] == [1,1];
  }

  lemma NormalizesToS1()
    ensures Normalize([[5],[5,5],[0,5]]) == [[1],[1,1],[0,1]]
  {
    var n := Normalize([[5],[5,5],[0,5]]);
    assert n[0] == [1];
    assert n[1] == [1,1];
    assert n[2] == [0,1];
  }

  lemma NormalizesToT0()
    ensures Normalize([[6,6,6],[0,6]]) == [[1,1,1],[0,1]]
  {
    var n := Normalize([[6,6,6],[0,6]]);
    assert n[0] == [1,1,1];
    assert n[1] == [0,1];
  }

  lemma NormalizesToT1()
    ensures Normalize([[0,6],[6,6],[0,6]]) == [[0,1],[1,1],[0,1]]
  {
    var n := Normalize([[0,6],[6,6],[0,6]]);
    assert n[0] == [0,1];
    assert n[1] == [1,1];
    assert n[2] == [0,1];
  }

  lemma NormalizesToT2()
    ensures Normalize([[0,6],[6,6,6]]) == [[0,1],[1,1,1]]
  {
    var n := Normalize([[0,6],[6,6,6]]);
    assert n[0] == [0,1];
    assert n[1] == [1,1,1];
  }

  lemma NormalizesToT3()
    ensures Normalize([[6],[6,6],[6]]) == [[1],[1,1],[1]]
  {
    var n := Normalize([[6],[6,6],[6]]);
    assert n[0] == [1];
    assert n[1] == [1,1];
    assert n[2] == [1];
  }

  lemma NormalizesToZ0()
    ensures Normalize([[7,7],[0,7,7]]) == [[1,1],[0,1,1]]
  {
    var n := Normalize([[7,7],[0,7,7]]);
    assert n[0] == [1,1];
    assert n[1] == [0,1,1];
  }

  lemma NormalizesToZ1()
    ensures Normalize([[0,7],[7,7],[7]]) == [[0,1],[1,1],[1]]
  {
    var n := Normalize([[0,7],[7,7],[7]]);
    assert n[0] == [0,1];
    assert n[1] == [1,1];
    assert n[2] == [1];
  }
}
