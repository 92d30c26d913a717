/** The Tet object of Tet.js, living or landed: its constructor, rotation,
    the three moves, the collision scans they call, and the landing that
    merges a piece, clears full rows and drops the fragments left above the
    last cleared row. */
module Pieces {
  import opened Catalog
  import opened Perimeter
  import opened Board
  import opened Clumps
  import opened Fill
  import opened GameState

  /** A constructor argument that may be left undefined. */
  datatype Option<T> = None | Some(value: T)

  /** The constructor's argument asks for a placed piece: it is undefined or
      greater than -1. */
  predicate Spawns(requested: Option<int>)
  {
    requested.None? || requested.value > -1
  }

  /** The rotation rotate moves to: the next of 0..3, wrapping after 3. */
  function NextRotation(rotation: int): (next: int)
    requires 0 <= rotation < 4
    ensures 0 <= next < 4 && next == (rotation + 1) % 4
  {
    if rotation >= 3 then 0 else rotation + 1
  }

  /** For every type but O, consecutive rotations have different shapes, so
      a shape one rotation behind is a visibly wrong shape. */
  lemma RotationChangesShape(kind: int, rotation: int)
    requires 0 <= kind < |ShapeTable| && kind != 3 && 0 <= rotation < 4
    ensures ShapeMatrix(kind, rotation) != ShapeMatrix(kind, NextRotation(rotation))
  {
    var m := ShapeTable[kind];
    var next := NextRotation(rotation);
    if |m| == 2 {
      assert |m[0]| != |m[1]|;
      assert ShapeMatrix(kind, rotation) == m[rotation % 2] && ShapeMatrix(kind, next) == m[next % 2];
    } else {
      assert |m| == 4;
      assert |m[0]| != |m[1]| && |m[1]| != |m[2]| && |m[2]| != |m[3]| && |m[3]| != |m[0]|;
      assert ShapeMatrix(kind, rotation) == m[rotation] && ShapeMatrix(kind, next) == m[next];
    }
  }

  /** Recursion level of a Tet: a living piece (type 0..6) may fragment the
      rows it lands on, a fragment (type -1) never does. */
  function Level(kind: int): nat
  {
    if kind >= 0 then 1 else 0
  }

  /** What a landing does to the merged board `b` for a piece of type `kind`
      whose top row is `start`: the full rows from `start` down are cleared;
      when a row was cleared and the piece is not a fragment, the clumps
      along the last cleared row are taken out and dropped in order. `gain`
      is the rise in score. */
  ghost predicate Landed(kind: int, b: Matrix, start: nat, after: Matrix, gain: int)
  {
    var cleared := ClearRows(b, start);
    var last := LastRemoved(b, start);
    if kind >= 0 && last >= 0 then
      exists ms: seq<seq<ClumpNode>>, rest: Matrix ::
        Fragmentation(cleared, last, ms, rest) &&
        (forall k :: 0 <= k < |ms| ==> WellFormed(ms[k])) &&
        after == DropClumps(rest, ms).board &&
        gain == Cleared(b, start) + DropClumps(rest, ms).cleared
    else
      after == cleared && gain == Cleared(b, start)
  }

  class Tet {
    var kind: int
    var rotation: int
    var topLeft: Pos
    var shape: Matrix
    var perimeter: Matrix

    /** A piece of one of the seven types at one of its rotations. */
    predicate Living()
      reads this
    {
      0 <= kind < |ShapeTable| && 0 <= rotation < 4 && shape in ShapeTable[kind]
    }

    /** `new Tet(type)`: a requested type in -1..6 is kept, any other (or
        none) is replaced by the random `randomKind`; a piece is placed at
        (0, 4) with its rotation-0 shape and outline unless the argument is
        -1 or less, which leaves it empty. */
    constructor(requested: Option<int>, randomKind: int)
      requires 0 <= randomKind < |ShapeTable|
      ensures kind == if requested.Some? && -1 <= requested.value < |ShapeTable| then requested.value else randomKind
      ensures rotation == 0
      ensures Spawns(requested) ==>
                Living() && topLeft == Pos(0, 4) && shape == ShapeMatrix(kind, 0) &&
                IsTetromino(shape, kind + 1) && perimeter == PerimeterOf(shape) != []
      ensures !Spawns(requested) ==> topLeft == Pos(0, 0) && shape == [] && perimeter == []
    {
      var t := if requested.Some? && -1 <= requested.value < |ShapeTable| then requested.value else randomKind;
      kind := t;
      rotation := 0;
      if Spawns(requested) {
        topLeft := Pos(0, 4);
        shape := ShapeMatrix(t, 0);
        perimeter := PerimeterOf(ShapeMatrix(t, 0));
        ShapeMatrixIsTetromino(t, 0);
        CatalogPerimeterFound(t, 0);
      } else {
        topLeft := Pos(0, 0);
        shape := [];
        perimeter := [];
      }
    }

    /** Tet.prototype.changeShape: the piece becomes a fragment with the
        given shape and the outline looked up for it. */
    method ChangeShape(s: Matrix)
      modifies this
      ensures kind == -1 && shape == s && perimeter == PerimeterOf(s)
      ensures rotation == old(rotation) && topLeft == old(topLeft)
    {
      kind := -1;
      shape := s;
      perimeter := PerimeterOf(s);
    }

    /** Tet.prototype.rotate as written: the candidate shape is the one for
        the current rotation (getShapeMatrix ignores its arguments), so the
        shape lags the rotation by one step. All or nothing, in place. */
    method Rotate(g: Game) returns (ok: bool)
      requires g.Valid() && 0 <= kind < |ShapeTable| && 0 <= rotation < 4 && 0 <= topLeft.row
      modifies this
      ensures kind == old(kind) && topLeft == old(topLeft) && perimeter == old(perimeter)
      ensures ok == !RotateCollision(g.landed, ShapeMatrix(kind, old(rotation)), topLeft)
      ensures ok ==> shape == ShapeMatrix(kind, old(rotation)) && rotation == NextRotation(old(rotation))
      ensures !ok ==> shape == old(shape) && rotation == old(rotation)
      ensures old(Living()) ==> Living()
      ensures ok && kind != 3 ==> shape != ShapeMatrix(kind, rotation)
    {
      var potRot := if rotation >= 3 then 0 else rotation + 1;
      var potShape := ShapeMatrix(kind, rotation);
      var blocked := ScanRotation(g.landed, potShape, topLeft);
      if blocked {
        return false;
      }
      if kind != 3 {
        RotationChangesShape(kind, rotation);
      }
      shape := potShape;
      rotation := potRot;
      return true;
    }

    /** Tet.prototype.rotate as evidently intended: the candidate shape is
        the one for the next rotation, so a piece whose shape matches its
        rotation still does afterwards. */
    method RotateIntended(g: Game) returns (ok: bool)
      requires g.Valid() && 0 <= kind < |ShapeTable| && 0 <= rotation < 4 && 0 <= topLeft.row
      modifies this
      ensures kind == old(kind) && topLeft == old(topLeft) && perimeter == old(perimeter)
      ensures ok == !RotateCollision(g.landed, ShapeMatrix(kind, NextRotation(old(rotation))), topLeft)
      ensures ok ==> rotation == NextRotation(old(rotation))
      ensures !ok ==> shape == old(shape) && rotation == old(rotation)
      ensures old(shape == ShapeMatrix(kind, rotation)) ==> shape == ShapeMatrix(kind, rotation)
      ensures ok ==> shape == ShapeMatrix(kind, rotation)
    {
      var potRot := if rotation >= 3 then 0 else rotation + 1;
      var potShape := ShapeMatrix(kind, potRot);
      var blocked := ScanRotation(g.landed, potShape, topLeft);
      if blocked {
        return false;
      }
      shape := potShape;
      rotation := potRot;
      return true;
    }

    /** Tet.prototype.checkBotCollision at `p`. */
    method CheckBotCollision(g: Game, p: Pos) returns (hit: bool)
      requires 0 <= p.row
      ensures hit == BotCollision(g.landed, shape, p)
    {
      var row := 0;
      while row < |shape|
        invariant 0 <= row <= |shape|
        invariant forall r, c :: 0 <= r < row && 0 <= c < |shape[r]| && shape[r][c] != 0 ==>
                    !(p.row + r >= |g.landed| || Occupied(g.landed, p.row + r, p.col + c))
      {
        var col := 0;
        while col < |shape[row]|
          invariant 0 <= col <= |shape[row]|
          invariant forall c :: 0 <= c < col && shape[row][c] != 0 ==>
                      !(p.row + row >= |g.landed| || Occupied(g.landed, p.row + row, p.col + c))
        {
          if shape[row][col] != 0 {
            if row + p.row >= |g.landed| {
              return true;
            } else if Occupied(g.landed, row + p.row, col + p.col) {
              return true;
            }
          }
          col := col + 1;
        }
        row := row + 1;
      }
      return false;
    }

    /** Tet.prototype.checkSideCollision at `p`, for a piece whose rows are
        on the board (reading a row outside it would throw). */
    method CheckSideCollision(g: Game, p: Pos) returns (hit: bool)
      requires g.Valid() && RowsWithin(g.landed, shape, p.row)
      ensures hit == SideCollision(g.landed, shape, p)
    {
      var row := 0;
      while row < |shape|
        invariant 0 <= row <= |shape|
        invariant forall r, c :: 0 <= r < row && 0 <= c < |shape[r]| && shape[r][c] != 0 ==>
                    !(p.col + c < 0 || p.col + c >= |g.landed[0]| || Occupied(g.landed, p.row + r, p.col + c))
      {
        var col := 0;
        while col < |shape[row]|
          invariant 0 <= col <= |shape[row]|
          invariant forall c :: 0 <= c < col && shape[row][c] != 0 ==>
                      !(p.col + c < 0 || p.col + c >= |g.landed[0]| || Occupied(g.landed, p.row + row, p.col + c))
        {
          if shape[row][col] != 0 {
            assert Covers(shape, row, col);
            if col + p.col < 0 {
              return true;
            }
            if col + p.col >= |g.landed[0]| {
              return true;
            }
            if Occupied(g.landed, row + p.row, col + p.col) {
              return true;
            }
          }
          col := col + 1;
        }
        row := row + 1;
      }
      return false;
    }

    /** Tet.prototype.moveLeft: one column left unless the side scan
        collides there; the row and the board never change. */
    method MoveLeft(g: Game)
      requires g.Valid() && RowsWithin(g.landed, shape, topLeft.row)
      modifies this
      ensures kind == old(kind) && rotation == old(rotation) && shape == old(shape) && perimeter == old(perimeter)
      ensures var p := Pos(old(topLeft).row, old(topLeft).col - 1);
              topLeft == if SideCollision(g.landed, shape, p) then old(topLeft) else p
    {
      var potentialTopLeft := Pos(topLeft.row, topLeft.col - 1);
      var hit := CheckSideCollision(g, potentialTopLeft);
      if !hit {
        topLeft := potentialTopLeft;
      }
    }

    /** Tet.prototype.moveRight: one column right unless the side scan
        collides there; the row and the board never change. */
    method MoveRight(g: Game)
      requires g.Valid() && RowsWithin(g.landed, shape, topLeft.row)
      modifies this
      ensures kind == old(kind) && rotation == old(rotation) && shape == old(shape) && perimeter == old(perimeter)
      ensures var p := Pos(old(topLeft).row, old(topLeft).col + 1);
              topLeft == if SideCollision(g.landed, shape, p) then old(topLeft) else p
    {
      var potentialTopLeft := Pos(topLeft.row, topLeft.col + 1);
      var hit := CheckSideCollision(g, potentialTopLeft);
      if !hit {
        topLeft := potentialTopLeft;
      }
    }

    /** Tet.prototype.moveDown: one row down when the bottom scan does not
        collide there; otherwise the piece is merged into the board where it
        is and lands, and false is returned. */
    method MoveDown(g: Game) returns (falling: bool)
      requires g.Valid() && Placed(shape, topLeft)
      modifies this, g
      decreases Level(kind), 1
      ensures g.Valid()
      ensures kind == old(kind) && rotation == old(rotation) && shape == old(shape) && perimeter == old(perimeter)
      ensures falling == !BotCollision(old(g.landed), shape, Pos(old(topLeft).row + 1, old(topLeft).col))
      ensures falling ==>
                topLeft == Pos(old(topLeft).row + 1, old(topLeft).col) &&
                g.landed == old(g.landed) && g.score == old(g.score) && g.newTet == old(g.newTet)
      ensures !falling ==>
                topLeft == old(topLeft) && g.newTet == (kind >= 0 || old(g.newTet)) &&
                Landed(kind, Stamp(old(g.landed), shape, topLeft), topLeft.row, g.landed, g.score - old(g.score))
    {
      var potentialTopLeft := Pos(topLeft.row + 1, topLeft.col);
      var hit := CheckBotCollision(g, potentialTopLeft);
      if !hit {
        topLeft := potentialTopLeft;
        return true;
      }
      var merged := MergeCells(g.landed, shape, topLeft);
      StampCells(g.landed, shape, topLeft);
      g.landed := merged;
      falling := Collided(g);
    }

    /** Tet.prototype.collided: a living piece asks for a new one; the full
        rows from the piece's top row down are cleared; if one was and the
        piece is not a fragment, the clumps along the last cleared row are
        collected and dropped. Always false. */
    method Collided(g: Game) returns (r: bool)
      requires g.Valid() && 0 <= topLeft.row
      modifies g
      decreases Level(kind), 0
      ensures !r && g.Valid()
      ensures g.newTet == (kind >= 0 || old(g.newTet))
      ensures Landed(kind, old(g.landed), topLeft.row, g.landed, g.score - old(g.score))
    {
      ghost var b := g.landed;
      if kind >= 0 {
        g.newTet := true;
      }
      var lastRowRemoved := g.ClearFullRows(topLeft.row);
      if lastRowRemoved >= 0 && kind >= 0 {
        LastFullSpec(b, ScanStart(b, topLeft.row), |b|);
        ghost var cleared, sc := g.landed, g.score;
        var clumps, ms := g.CollectClumps(lastRowRemoved);
        ghost var rest := g.landed;
        FragmentationWellFormed(cleared, lastRowRemoved, ms, rest);
        DropFragments(g, clumps, ms);
        assert Fragmentation(cleared, lastRowRemoved, ms, rest) &&
               (forall k :: 0 <= k < |ms| ==> WellFormed(ms[k])) &&
               g.landed == DropClumps(rest, ms).board &&
               g.score - old(g.score) == Cleared(b, topLeft.row) + DropClumps(rest, ms).cleared;
      }
      return false;
    }
  }

  /** The scan inside Tet.prototype.rotate of shape `s` at `p`: true at the
      first non-zero cell left of the board, right of it, below it, or on a
      taken cell. */
  method ScanRotation(b: Matrix, s: Matrix, p: Pos) returns (blocked: bool)
    requires IsBoard(b) && 0 <= p.row
    ensures blocked == RotateCollision(b, s, p)
  {
    var row := 0;
    while row < |s|
      invariant 0 <= row <= |s|
      invariant forall r, c :: 0 <= r < row && 0 <= c < |s[r]| && s[r][c] != 0 ==>
                  !(p.col + c < 0 || p.col + c >= |b[0]| || p.row + r >= |b| || Occupied(b, p.row + r, p.col + c))
    {
      var col := 0;
      while col < |s[row]|
        invariant 0 <= col <= |s[row]|
        invariant forall c :: 0 <= c < col && s[row][c] != 0 ==>
                    !(p.col + c < 0 || p.col + c >= |b[0]| || p.row + row >= |b| || Occupied(b, p.row + row, p.col + c))
      {
        if s[row][col] != 0 {
          if col + p.col < 0 {
            return true;
          }
          if col + p.col >= |b[0]| {
            return true;
          }
          if row + p.row >= |b| {
            return true;
          }
          if b[row + p.row][col + p.col] != 0 {
            return true;
          }
        }
        col := col + 1;
      }
      row := row + 1;
    }
    return false;
  }

  /** The cells of `s` at `p` that moveDown's merge loop has written once it
      reaches shape row `row`, column `col`. */
  predicate WrittenBefore(s: Matrix, p: Pos, R: int, C: int, row: int, col: int)
  {
    Under(s, p, R, C) && (R - p.row < row || (R - p.row == row && C - p.col < col))
  }

  /** `m` is `b` with the cells written before (row, col) replaced. */
  predicate MergedUpTo(m: Matrix, b: Matrix, s: Matrix, p: Pos, row: int, col: int)
    requires IsBoard(b)
  {
    IsBoard(m) &&
    forall R, C :: 0 <= R < Rows && 0 <= C < Cols ==>
      m[R][C] == if WrittenBefore(s, p, R, C, row, col) then s[R - p.row][C - p.col] else b[R][C]
  }

  /** The merge loop of Tet.prototype.moveDown: every non-zero cell of `s`
      written into the board at `p`. */
  method MergeCells(b: Matrix, s: Matrix, p: Pos) returns (m: Matrix)
    requires IsBoard(b) && Placed(s, p)
    ensures m == Stamp(b, s, p)
  {
    m := b;
    var row := 0;
    while row < |s|
      invariant 0 <= row <= |s|
      invariant MergedUpTo(m, b, s, p, row, 0)
    {
      var col := 0;
      while col < |s[row]|
        invariant 0 <= col <= |s[row]|
        invariant MergedUpTo(m, b, s, p, row, col)
      {
        if s[row][col] != 0 {
          m := m[row + p.row := m[row + p.row][col + p.col := s[row][col]]];
        }
        col := col + 1;
      }
      row := row + 1;
    }
    MergedAll(m, b, s, p);
  }

  lemma MergedAll(m: Matrix, b: Matrix, s: Matrix, p: Pos)
    requires IsBoard(b) && MergedUpTo(m, b, s, p, |s|, 0)
    ensures m == Stamp(b, s, p)
  {
    var st := Stamp(b, s, p);
    forall R | 0 <= R < Rows ensures m[R] == st[R] {
      forall C | 0 <= C < Cols ensures m[R][C] == st[R][C] {
        assert WrittenBefore(s, p, R, C, |s|, 0) == Under(s, p, R, C);
      }
    }
  }

  /** The fragment loop of Tet.prototype.collided: for each clump in turn, a
      throwaway `new Tet()` of a random type takes the clump's bounding-box
      shape and top-left, becomes a fragment, and falls with
      `while (tmp.moveDown()) {}`. */
  method DropFragments(g: Game, clumps: seq<Clump>, ghost ms: seq<seq<ClumpNode>>)
    requires g.Valid() && |clumps| == |ms|
    requires forall k :: 0 <= k < |ms| ==> clumps[k].matrix == ms[k] && WellFormed(ms[k])
    requires forall j, k :: 0 <= j < k < |clumps| ==> clumps[j] != clumps[k]
    modifies g, clumps
    decreases 0, 5
    ensures g.Valid()
    ensures g.landed == DropClumps(old(g.landed), ms).board
    ensures g.score == old(g.score) + DropClumps(old(g.landed), ms).cleared
    ensures g.newTet == old(g.newTet)
  {
    FragmentsDroppable(ms);
    ghost var fs := Fragments(ms);
    ghost var b0 := g.landed;
    var i := 0;
    while i < |clumps|
      invariant 0 <= i <= |clumps| && g.Valid()
      invariant forall k :: i <= k < |clumps| ==> clumps[k].matrix == ms[k]
      invariant g.landed == DropFirst(b0, fs, i).board
      invariant g.score == old(g.score) + DropFirst(b0, fs, i).cleared
      invariant g.newTet == old(g.newTet)
    {
      DropNext(g, clumps, ms, fs, b0, old(g.score), i);
      i := i + 1;
    }
  }

  /** The fragment loop's step from the first `i` fragments landed to the
      first `i + 1`. */
  method DropNext(g: Game, clumps: seq<Clump>, ghost ms: seq<seq<ClumpNode>>, ghost fs: seq<Fragment>,
                  ghost b0: Matrix, ghost s0: int, i: nat)
    requires g.Valid() && |clumps| == |ms| && i < |clumps|
    requires forall k :: 0 <= k < |ms| ==> WellFormed(ms[k])
    requires fs == Fragments(ms) && forall j :: 0 <= j < |fs| ==> Droppable(fs[j])
    requires forall k :: i <= k < |clumps| ==> clumps[k].matrix == ms[k]
    requires forall j, k :: 0 <= j < k < |clumps| ==> clumps[j] != clumps[k]
    requires g.landed == DropFirst(b0, fs, i).board
    requires g.score == s0 + DropFirst(b0, fs, i).cleared
    modifies g, clumps[i]
    decreases 0, 4
    ensures g.Valid()
    ensures forall k :: i + 1 <= k < |clumps| ==> clumps[k].matrix == ms[k]
    ensures g.landed == DropFirst(b0, fs, i + 1).board
    ensures g.score == s0 + DropFirst(b0, fs, i + 1).cleared
    ensures g.newTet == old(g.newTet)
  {
    DropClump(g, clumps[i], ms[i], fs[i]);
    DropFirstNext(b0, fs, i);
  }

  /** One pass of the fragment loop: a throwaway `new Tet()` of a random
      type takes the clump's bounding-box shape and top-left, becomes a
      fragment, and falls. */
  method DropClump(g: Game, c: Clump, ghost ns: seq<ClumpNode>, ghost f: Fragment)
    requires g.Valid() && c.matrix == ns && WellFormed(ns)
    requires f == Fragment(ClumpShape(ns), BoxTopLeft(ns)) && Droppable(f)
    modifies g, c
    decreases 0, 3
    ensures g.Valid()
    ensures g.landed == LandFragment(old(g.landed), f.shape, f.at).board
    ensures g.score == old(g.score) + LandFragment(old(g.landed), f.shape, f.at).cleared
    ensures g.newTet == old(g.newTet)
  {
    var k :| 0 <= k < |ShapeTable|;
    var tmp := new Tet(None, k);
    var shape := c.ComputeShape();
    tmp.shape := shape;
    tmp.topLeft := c.topLeft;
    tmp.kind := -1;
    ClumpShapePlaced(ns);
    FallOne(g, tmp, f);
  }

  /** `while (tmp.moveDown()) {}` for a fragment that starts at `f.at`: it
      stops where Settle says, one moveDown per row fallen, and lands there. */
  method FallOne(g: Game, tmp: Tet, ghost f: Fragment)
    requires g.Valid() && Droppable(f) && Placed(f.shape, f.at)
    requires tmp.kind == -1 && tmp.shape == f.shape && tmp.topLeft == f.at
    modifies g, tmp
    decreases 0, 2
    ensures g.Valid()
    ensures g.landed == LandFragment(old(g.landed), f.shape, f.at).board
    ensures g.score == old(g.score) + LandFragment(old(g.landed), f.shape, f.at).cleared
    ensures g.newTet == old(g.newTet)
  {
    ghost var b, sc := g.landed, g.score;
    var falling := true;
    while falling
      invariant g.Valid() && tmp.kind == -1 && tmp.shape == f.shape
      invariant falling ==>
                  g.landed == b && g.score == sc && Placed(f.shape, tmp.topLeft) && tmp.topLeft.row < Rows &&
                  Settle(b, f.shape, tmp.topLeft) == Settle(b, f.shape, f.at)
      invariant !falling ==>
                  g.landed == LandFragment(b, f.shape, f.at).board &&
                  g.score == sc + LandFragment(b, f.shape, f.at).cleared
      invariant g.newTet == old(g.newTet)
      decreases Rows - tmp.topLeft.row + (if falling then 1 else 0)
    {
      ghost var p := tmp.topLeft;
      falling := tmp.MoveDown(g);
      if falling {
        BotCollisionIff(b, f.shape, tmp.topLeft);
        FitsIsPlaced(b, f.shape, tmp.topLeft);
        FallBound(b, f.shape, p);
      }
    }
  }
}
