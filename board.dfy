/** The landed grid (`landed`, 16 rows of 10 colours) and the pure rules
    over it: the three collision scans of Tet.js, the merge of a landing
    piece, the result of the row-clear scan, and where a free fall stops. */
module Board {
  import opened Catalog

  const Rows: int := 16
  const Cols: int := 10

  /** A board position: row 0 is the top, column 0 the left. */
  datatype Pos = Pos(row: int, col: int)

  /** `b` has the board's dimensions. */
  predicate IsBoard(b: Matrix)
  {
    |b| == Rows && forall r :: 0 <= r < |b| ==> |b[r]| == Cols
  }

  /** `s` has a non-zero cell. */
  predicate HasCell(s: Matrix)
  {
    exists r, c :: 0 <= r < |s| && 0 <= c < |s[r]| && s[r][c] != 0
  }

  /** Every non-zero cell of `s`, drawn with its top-left at `p`, is on the board. */
  predicate Placed(s: Matrix, p: Pos)
  {
    0 <= p.row &&
    forall r, c :: 0 <= r < |s| && 0 <= c < |s[r]| && s[r][c] != 0 ==>
      p.row + r < Rows && 0 <= p.col + c < Cols
  }

  /** Every non-zero cell of `s` at `p` is a cell of `b` and that cell is 0. */
  predicate Fits(b: Matrix, s: Matrix, p: Pos)
  {
    0 <= p.row &&
    forall r, c :: 0 <= r < |s| && 0 <= c < |s[r]| && s[r][c] != 0 ==>
      p.row + r < |b| && 0 <= p.col + c < |b[p.row + r]| && b[p.row + r][p.col + c] == 0
  }

  /** Reading cell (r, c) of an existing row: a column outside the row reads
      as `undefined`, which compares unequal to 0. */
  predicate Occupied(b: Matrix, r: int, c: int)
    requires 0 <= r < |b|
  {
    !(0 <= c < |b[r]|) || b[r][c] != 0
  }

  /** Tet.prototype.checkBotCollision at `p`: some non-zero cell is below the
      last row or on an occupied cell. */
  predicate BotCollision(b: Matrix, s: Matrix, p: Pos)
    requires 0 <= p.row
  {
    exists r, c :: 0 <= r < |s| && 0 <= c < |s[r]| && s[r][c] != 0 &&
      (p.row + r >= |b| || Occupied(b, p.row + r, p.col + c))
  }

  /** Every row that a non-zero cell of `s` at `p` lands in is a row of `b`. */
  ghost predicate RowsWithin(b: Matrix, s: Matrix, row: int)
  {
    forall r, c :: 0 <= r < |s| && 0 <= c < |s[r]| && s[r][c] != 0 ==> 0 <= row + r < |b|
  }

  /** Tet.prototype.checkSideCollision at `p`: some non-zero cell is left of
      column 0, at or beyond the width of row 0, or on an occupied cell. Rows
      are not checked: reading a row outside the board would throw. */
  predicate SideCollision(b: Matrix, s: Matrix, p: Pos)
    requires |b| > 0
    requires RowsWithin(b, s, p.row)
  {
    exists r, c :: 0 <= r < |s| && 0 <= c < |s[r]| && s[r][c] != 0 &&
      (p.col + c < 0 || p.col + c >= |b[0]| || Occupied(b, p.row + r, p.col + c))
  }

  /** The scan inside Tet.prototype.rotate at `p`: some non-zero cell is left
      of column 0, at or beyond the width of row 0, below the last row, or on
      an occupied cell. */
  predicate RotateCollision(b: Matrix, s: Matrix, p: Pos)
    requires |b| > 0 && 0 <= p.row
  {
    exists r, c :: 0 <= r < |s| && 0 <= c < |s[r]| && s[r][c] != 0 &&
      (p.col + c < 0 || p.col + c >= |b[0]| || p.row + r >= |b| || Occupied(b, p.row + r, p.col + c))
  }

  /** On any grid, the bottom scan fails exactly when the piece fits. */
  lemma BotCollisionIff(b: Matrix, s: Matrix, p: Pos)
    requires 0 <= p.row
    ensures BotCollision(b, s, p) <==> !Fits(b, s, p)
  {
  }

  /** On a board, the rotation scan fails exactly when the piece fits. */
  lemma RotateCollisionIff(b: Matrix, s: Matrix, p: Pos)
    requires IsBoard(b) && 0 <= p.row
    ensures RotateCollision(b, s, p) <==> !Fits(b, s, p)
  {
  }

  /** On a board, for a piece whose rows are on the board, the side scan
      fails exactly when the piece fits. */
  lemma SideCollisionIff(b: Matrix, s: Matrix, p: Pos)
    requires IsBoard(b) && 0 <= p.row
    requires RowsWithin(b, s, p.row)
    ensures SideCollision(b, s, p) <==> !Fits(b, s, p)
  {
  }

  /** A piece that fits on a board is placed on it. */
  lemma FitsIsPlaced(b: Matrix, s: Matrix, p: Pos)
    requires IsBoard(b) && Fits(b, s, p)
    ensures Placed(s, p)
  {
  }

  // ---------------------------------------------------------------------------
  // Merging a landed piece
  // ---------------------------------------------------------------------------

  /** Board cell (R, C) lies under non-zero cell (R - p.row, C - p.col) of `s`. */
  predicate Under(s: Matrix, p: Pos, R: int, C: int)
  {
    Covers(s, R - p.row, C - p.col)
  }

  /** The board after moveDown's merge loop has written every non-zero cell
      of `s` at `p`. */
  function Stamp(b: Matrix, s: Matrix, p: Pos): (m: Matrix)
    ensures |m| == |b| && forall R :: 0 <= R < |b| ==> |m[R]| == |b[R]|
  {
    seq(|b|, R requires 0 <= R < |b| =>
      seq(|b[R]|, C requires 0 <= C < |b[R]| =>
        if Under(s, p, R, C) then s[R - p.row][C - p.col] else b[R][C]))
  }

  /** Merging a placed piece keeps the board's dimensions, puts every
      non-zero cell of the piece on the board, and changes no other cell. */
  lemma StampCells(b: Matrix, s: Matrix, p: Pos)
    requires IsBoard(b) && Placed(s, p)
    ensures IsBoard(Stamp(b, s, p))
    ensures forall r, c :: Covers(s, r, c) ==> Stamp(b, s, p)[p.row + r][p.col + c] == s[r][c]
    ensures forall R, C :: 0 <= R < Rows && 0 <= C < Cols && !Under(s, p, R, C) ==> Stamp(b, s, p)[R][C] == b[R][C]
  {
  }

  // ---------------------------------------------------------------------------
  // The row-clear scan
  // ---------------------------------------------------------------------------

  /** No cell of the row is 0. */
  predicate IsFull(row: seq<int>)
  {
    forall c :: 0 <= c < |row| ==> row[c] != 0
  }

  /** The row collided unshifts on top for every removed row. */
  const ZeroRow: seq<int> := [0, 0, 0, 0, 0, 0, 0, 0, 0, 0]

  function ZeroRows(k: nat): Matrix
  {
    seq(k, _ => ZeroRow)
  }

  /** Number of full rows among rows lo..hi-1 of `b`. */
  function FullCount(b: Matrix, lo: nat, hi: nat): nat
    requires lo <= hi <= |b|
    decreases hi - lo
  {
    if hi == lo then 0 else FullCount(b, lo, hi - 1) + (if IsFull(b[hi - 1]) then 1 else 0)
  }

  /** The rows among lo..hi-1 of `b` that are not full, in their order. */
  function Kept(b: Matrix, lo: nat, hi: nat): (k: Matrix)
    requires lo <= hi <= |b|
    ensures |k| + FullCount(b, lo, hi) == hi - lo
    decreases hi - lo
  {
    if hi == lo then [] else Kept(b, lo, hi - 1) + (if IsFull(b[hi - 1]) then [] else [b[hi - 1]])
  }

  /** Index of the last full row among lo..hi-1 of `b`, -1 if none. */
  function LastFull(b: Matrix, lo: nat, hi: nat): int
    requires lo <= hi <= |b|
    decreases hi - lo
  {
    if hi == lo then -1 else if IsFull(b[hi - 1]) then hi - 1 else LastFull(b, lo, hi - 1)
  }

  /** Where the scan of collided starts: the piece's top row, or nowhere when
      that is below the board. */
  function ScanStart(b: Matrix, start: nat): nat
  {
    if start < |b| then start else |b|
  }

  /** The board after collided's scan from row `start`: every full row at or
      below `start` is removed and as many zero rows are added on top. */
  function ClearRows(b: Matrix, start: nat): (m: Matrix)
    ensures |m| == |b|
  {
    var s := ScanStart(b, start);
    ZeroRows(FullCount(b, s, |b|)) + b[..s] + Kept(b, s, |b|)
  }

  /** Number of rows the scan from `start` removes. */
  function Cleared(b: Matrix, start: nat): nat
  {
    FullCount(b, ScanStart(b, start), |b|)
  }

  /** The value collided leaves in lastRowRemoved: the index of the last
      removed row, -1 if none. */
  function LastRemoved(b: Matrix, start: nat): int
  {
    LastFull(b, ScanStart(b, start), |b|)
  }

  /** Kept rows are the rows of the range that are not full. */
  lemma {:induction false} KeptRows(b: Matrix, lo: nat, hi: nat)
    requires lo <= hi <= |b|
    ensures forall i :: 0 <= i < |Kept(b, lo, hi)| ==>
              !IsFull(Kept(b, lo, hi)[i]) && Kept(b, lo, hi)[i] in b[lo..hi]
    ensures forall r :: lo <= r < hi && !IsFull(b[r]) ==> b[r] in Kept(b, lo, hi)
    decreases hi - lo
  {
    if hi > lo {
      KeptRows(b, lo, hi - 1);
      var k := Kept(b, lo, hi - 1);
      forall i | 0 <= i < |Kept(b, lo, hi)|
        ensures !IsFull(Kept(b, lo, hi)[i]) && Kept(b, lo, hi)[i] in b[lo..hi]
      {
        if i < |k| {
          assert Kept(b, lo, hi)[i] == k[i];
          assert k[i] in b[lo..hi - 1];
          assert b[lo..hi - 1] <= b[lo..hi];
        } else {
          assert b[hi - 1] == b[lo..hi][hi - 1 - lo];
        }
      }
    }
  }

  /** The scan keeps the board's dimensions. */
  lemma ClearRowsIsBoard(b: Matrix, start: nat)
    requires IsBoard(b)
    ensures IsBoard(ClearRows(b, start))
  {
    var s := ScanStart(b, start);
    KeptRows(b, s, |b|);
    var m := ClearRows(b, start);
    var z := ZeroRows(FullCount(b, s, |b|));
    forall r | 0 <= r < |m| ensures |m[r]| == Cols {
      if r < |z| {
      } else if r < |z| + s {
        assert m[r] == b[r - |z|];
      } else {
        assert m[r] == Kept(b, s, |b|)[r - |z| - s];
        assert m[r] in b[s..];
      }
    }
  }

  /** After the scan no row below the added zero rows and the unscanned
      rows is full. */
  lemma ClearRowsScannedNotFull(b: Matrix, start: nat)
    ensures forall r :: Cleared(b, start) + ScanStart(b, start) <= r < |b| ==> !IsFull(ClearRows(b, start)[r])
  {
    var s := ScanStart(b, start);
    KeptRows(b, s, |b|);
    var m := ClearRows(b, start);
    var k := Cleared(b, start);
    forall r | k + s <= r < |b| ensures !IsFull(m[r]) {
      assert m[r] == Kept(b, s, |b|)[r - k - s];
    }
  }

  /** When no row above `start` was full, no row of the board is full after the scan. */
  lemma ClearRowsLeavesNoFullRow(b: Matrix, start: nat)
    requires IsBoard(b)
    requires forall r :: 0 <= r < ScanStart(b, start) ==> !IsFull(b[r])
    ensures forall r :: 0 <= r < |b| ==> !IsFull(ClearRows(b, start)[r])
  {
    var s := ScanStart(b, start);
    var m := ClearRows(b, start);
    var k := Cleared(b, start);
    ClearRowsScannedNotFull(b, start);
    forall r | 0 <= r < k + s ensures !IsFull(m[r]) {
      if r < k {
        assert m[r] == ZeroRow;
        assert m[r][0] == 0;
      } else {
        assert m[r] == b[r - k];
      }
    }
  }

  lemma {:induction false} KeptNothingFull(b: Matrix, lo: nat, hi: nat)
    requires lo <= hi <= |b| && FullCount(b, lo, hi) == 0
    ensures Kept(b, lo, hi) == b[lo..hi]
    decreases hi - lo
  {
    if hi > lo {
      KeptNothingFull(b, lo, hi - 1);
      assert b[lo..hi] == b[lo..hi - 1] + [b[hi - 1]];
    }
  }

  /** Without a full row in the scanned part the scan changes nothing. */
  lemma ClearRowsNothingFull(b: Matrix, start: nat)
    requires Cleared(b, start) == 0
    ensures ClearRows(b, start) == b
  {
    var s := ScanStart(b, start);
    KeptNothingFull(b, s, |b|);
    assert ZeroRows(0) == [];
    assert b[..s] + b[s..|b|] == b;
  }

  /** lastRowRemoved is -1 exactly when no row is removed; otherwise it is a
      full row of the scanned part with no full row below it. */
  lemma {:induction false} LastFullSpec(b: Matrix, lo: nat, hi: nat)
    requires lo <= hi <= |b|
    ensures LastFull(b, lo, hi) == -1 || lo <= LastFull(b, lo, hi) < hi
    ensures LastFull(b, lo, hi) == -1 <==> FullCount(b, lo, hi) == 0
    ensures LastFull(b, lo, hi) >= 0 ==>
              IsFull(b[LastFull(b, lo, hi)]) && (forall j :: LastFull(b, lo, hi) < j < hi ==> !IsFull(b[j]))
    decreases hi - lo
  {
    if hi > lo {
      LastFullSpec(b, lo, hi - 1);
    }
  }

  /** The board collided's scan leaves after rows s..row-1, step by step:
      a row that is full is spliced out and a zero row put on top. */
  function ScanState(b: Matrix, s: nat, row: nat): (st: Matrix)
    requires s <= row <= |b|
    ensures |st| == |b|
    decreases row - s
  {
    if row == s then b
    else
      var st := ScanState(b, s, row - 1);
      if IsFull(st[row - 1]) then [ZeroRow] + st[..row - 1] + st[row..] else st
  }

  /** Splicing out the first row of `rest` and putting `top` in front. */
  lemma SpliceOut(top: seq<int>, z: Matrix, pre: Matrix, kept: Matrix, rest: Matrix)
    requires rest != []
    ensures var st := z + pre + kept + rest;
            var n := |z| + |pre| + |kept|;
            [top] + st[..n] + st[n + 1..] == ([top] + z) + pre + kept + rest[1..]
  {
    var st := z + pre + kept + rest;
    var n := |z| + |pre| + |kept|;
    assert st[..n] == z + pre + kept;
    assert st[n + 1..] == rest[1..];
  }

  /** Moving the first row of `rest` to the end of `kept`. */
  lemma KeepFirst(z: Matrix, pre: Matrix, kept: Matrix, rest: Matrix)
    requires rest != []
    ensures z + pre + kept + rest == z + pre + (kept + [rest[0]]) + rest[1..]
  {
    assert rest == [rest[0]] + rest[1..];
  }

  /** The step-by-step scan has removed the full rows of s..row-1 and put as
      many zero rows on top; rows from `row` down are untouched. */
  lemma {:induction false} ScanClosedForm(b: Matrix, s: nat, row: nat)
    requires s <= row <= |b|
    ensures ScanState(b, s, row) == ZeroRows(FullCount(b, s, row)) + b[..s] + Kept(b, s, row) + b[row..]
    decreases row - s
  {
    if row == s {
      assert b[..s] + b[s..] == b;
    } else {
      var r := row - 1;
      ScanClosedForm(b, s, r);
      var z, pre, kept, rest := ZeroRows(FullCount(b, s, r)), b[..s], Kept(b, s, r), b[r..];
      var st := ScanState(b, s, r);
      assert st == z + pre + kept + rest;
      assert |z| + |pre| + |kept| == r;
      assert rest[0] == b[r] && rest[1..] == b[row..];
      assert st[r] == b[r];
      if IsFull(b[r]) {
        assert ScanState(b, s, row) == [ZeroRow] + st[..r] + st[r + 1..];
        SpliceOut(ZeroRow, z, pre, kept, rest);
        ZeroRowsSucc(FullCount(b, s, r));
        assert FullCount(b, s, row) == FullCount(b, s, r) + 1;
        assert Kept(b, s, row) == kept;
      } else {
        assert ScanState(b, s, row) == st;
        KeepFirst(z, pre, kept, rest);
        assert FullCount(b, s, row) == FullCount(b, s, r);
        assert Kept(b, s, row) == kept + [rest[0]];
      }
    }
  }

  lemma ZeroRowsSucc(k: nat)
    ensures ZeroRows(k + 1) == [ZeroRow] + ZeroRows(k)
  {
  }

  /** The row the scan looks at next is still the original row. */
  lemma ScanRowUnchanged(b: Matrix, s: nat, row: nat)
    requires s <= row < |b|
    ensures ScanState(b, s, row)[row] == b[row]
  {
    ScanClosedForm(b, s, row);
    var st := ScanState(b, s, row);
    assert |ZeroRows(FullCount(b, s, row))| + s + |Kept(b, s, row)| == row;
    assert st == (ZeroRows(FullCount(b, s, row)) + b[..s] + Kept(b, s, row)) + b[row..];
  }

  /** The scan's final state is the cleared board. */
  lemma ScanDone(b: Matrix, start: nat)
    ensures ScanState(b, ScanStart(b, start), |b|) == ClearRows(b, start)
  {
    ScanClosedForm(b, ScanStart(b, start), |b|);
    assert b[|b|..] == [];
  }

  // ---------------------------------------------------------------------------
  // Free fall
  // ---------------------------------------------------------------------------

  /** A piece with a cell that does not collide one row lower can still fall. */
  lemma FallBound(b: Matrix, s: Matrix, p: Pos)
    requires 0 <= p.row && HasCell(s) && !BotCollision(b, s, Pos(p.row + 1, p.col))
    ensures p.row + 1 < |b|
  {
    var r, c :| 0 <= r < |s| && 0 <= c < |s[r]| && s[r][c] != 0;
  }

  /** Where the loop `while (tmp.moveDown()) {}` leaves a piece that starts
      at `p`: the first position from which one row lower collides. */
  function Settle(b: Matrix, s: Matrix, p: Pos): (q: Pos)
    requires 0 <= p.row && HasCell(s)
    ensures q.col == p.col && p.row <= q.row
    ensures q.row == p.row || q.row < |b|
    ensures BotCollision(b, s, Pos(q.row + 1, q.col))
    ensures forall i :: p.row < i <= q.row ==> !BotCollision(b, s, Pos(i, p.col))
    decreases |b| - p.row
  {
    if BotCollision(b, s, Pos(p.row + 1, p.col)) then p
    else FallBound(b, s, p); Settle(b, s, Pos(p.row + 1, p.col))
  }

  /** A fall stops within board-height steps. */
  lemma SettleSteps(b: Matrix, s: Matrix, p: Pos)
    requires 0 <= p.row && HasCell(s)
    ensures Settle(b, s, p).row - p.row <= |b|
  {
  }

  /** The outcome of one landing of a fragment: the board and the number of
      rows it cleared. */
  datatype Landing = Landing(board: Matrix, cleared: nat)

  /** A fragment at `p` falls, is merged where it stops, and the rows from its
      top row down are scanned. */
  function LandFragment(b: Matrix, s: Matrix, p: Pos): Landing
    requires 0 <= p.row && HasCell(s)
  {
    var q := Settle(b, s, p);
    var m := Stamp(b, s, q);
    Landing(ClearRows(m, q.row), Cleared(m, q.row))
  }

  /** A fragment: its shape and its starting top-left. */
  datatype Fragment = Fragment(shape: Matrix, at: Pos)

  predicate Droppable(f: Fragment)
  {
    0 <= f.at.row && HasCell(f.shape)
  }

  /** The first `n` fragments dropped one after the other, in order. */
  function DropFirst(b: Matrix, fs: seq<Fragment>, n: nat): Landing
    requires n <= |fs|
    requires forall j :: 0 <= j < |fs| ==> Droppable(fs[j])
    decreases n, 0
  {
    if n == 0 then Landing(b, 0)
    else
      var last := LandNth(b, fs, n - 1);
      Landing(last.board, DropFirst(b, fs, n - 1).cleared + last.cleared)
  }

  function LandNth(b: Matrix, fs: seq<Fragment>, k: nat): Landing
    requires k < |fs|
    requires forall j :: 0 <= j < |fs| ==> Droppable(fs[j])
    decreases k, 1
  {
    assert Droppable(fs[k]);
    LandFragment(DropFirst(b, fs, k).board, fs[k].shape, fs[k].at)
  }

  lemma DropFirstNext(b: Matrix, fs: seq<Fragment>, k: nat)
    requires k < |fs|
    requires forall j :: 0 <= j < |fs| ==> Droppable(fs[j])
    ensures DropFirst(b, fs, k + 1).board == LandFragment(DropFirst(b, fs, k).board, fs[k].shape, fs[k].at).board
    ensures DropFirst(b, fs, k + 1).cleared == DropFirst(b, fs, k).cleared + LandFragment(DropFirst(b, fs, k).board, fs[k].shape, fs[k].at).cleared
  {
  }

  /** Landing fragments keeps the board's dimensions. */
  lemma {:induction false} DropFirstIsBoard(b: Matrix, fs: seq<Fragment>, n: nat)
    requires IsBoard(b) && n <= |fs|
    requires forall j :: 0 <= j < |fs| ==> Droppable(fs[j])
    ensures IsBoard(DropFirst(b, fs, n).board)
  {
    if n > 0 {
      DropFirstIsBoard(b, fs, n - 1);
      LandFragmentIsBoard(DropFirst(b, fs, n - 1).board, fs[n - 1].shape, fs[n - 1].at);
    }
  }

  lemma LandFragmentIsBoard(b: Matrix, s: Matrix, p: Pos)
    requires IsBoard(b) && 0 <= p.row && HasCell(s)
    ensures IsBoard(LandFragment(b, s, p).board)
  {
    var q := Settle(b, s, p);
    var m := Stamp(b, s, q);
    assert IsBoard(m);
    ClearRowsIsBoard(m, q.row);
  }
}
