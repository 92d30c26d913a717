/** The game state Tet.js works on: the globals `landed`, `score` and
    `newTet` become the fields of a Game, whose methods are the row-clear
    scan and the flood fills of Tet.prototype.collided. */
module GameState {
  import opened Catalog
  import opened Perimeter
  import opened Board
  import opened Clumps
  import opened Fill

  /** The state outside Tet.js that its methods use: the landed board, the
      score, and the flag asking the game loop for a new living Tet. */
  class Game {
    var landed: Matrix
    var score: int
    var newTet: bool

    predicate Valid()
      reads this
    {
      IsBoard(landed)
    }

    constructor(board: Matrix, score: int, newTet: bool)
      requires IsBoard(board)
      ensures Valid()
      ensures landed == board && this.score == score && this.newTet == newTet
    {
      landed := board;
      this.score := score;
      this.newTet := newTet;
    }

    /** The row scan of Tet.prototype.collided from row `start` on the
        landed board: the score grows by one per removed row, and the index
        of the last removed row is returned. */
    method ClearFullRows(start: nat) returns (lastRowRemoved: int)
      requires Valid()
      modifies this
      ensures Valid()
      ensures landed == ClearRows(old(landed), start)
      ensures score == old(score) + Cleared(old(landed), start)
      ensures lastRowRemoved == LastRemoved(old(landed), start)
      ensures newTet == old(newTet)
    {
      var board, removed, last := ScanFullRows(landed, start);
      ClearRowsIsBoard(landed, start);
      landed := board;
      score := score + removed;
      lastRowRemoved := last;
    }

    /** One flood fill of collided from (row, col) on the landed board: a
        FIFO queue seeded with that cell and the colour found there; a popped
        cell of that colour (and not 0) joins the clump, is set to 0, and
        its neighbours are queued. The pop count is capped at 1000, a cap
        never reached: at most 160 cells are taken and each queues at most
        four neighbours. */
    method FloodFill(row: int, col: int) returns (c: Clump)
      requires Valid() && OnBoardPos(Pos(row, col))
      modifies this
      ensures Valid()
      ensures fresh(c) && c.row == row && c.col == col && c.topLeft == Pos(0, 0)
      ensures IsFill(old(landed), Pos(row, col), c.matrix)
      ensures ZeroedAt(landed, old(landed), Cells(c.matrix))
      ensures score == old(score) && newTet == old(newTet)
    {
      ghost var b0 := landed;
      var board := landed;
      var colorFound := board[row][col];
      var q := [ClumpNode(row, col, colorFound)];
      var i := 0;
      c := new Clump(row, col);
      ghost var qpar: seq<nat> := [0];
      ghost var mpar: seq<nat> := [];
      FillStart(b0, Pos(row, col));
      while |q| > 0 && i < 1000
        modifies c
        invariant c.row == row && c.col == col && c.topLeft == Pos(0, 0)
        invariant FillState(b0, Pos(row, col), board, c.matrix, q, qpar, mpar, i)
        decreases 1000 - i
      {
        var n := q[0];
        ghost var q0, qpar0 := q, qpar;
        q := q[1..];
        qpar := qpar[1..];
        // Column 10 reads as undefined, which never equals the colour found.
        if n.col < |board[n.row]| && board[n.row][n.col] == colorFound && board[n.row][n.col] > 0 {
          var colorNow := board[n.row][n.col];
          FillTake(b0, Pos(row, col), board, c.matrix, q0, qpar0, mpar, i);
          mpar := mpar + [qpar0[0]];
          var k := |c.matrix|;
          c.AddNode(n);
          board := board[n.row := board[n.row][n.col := 0]];
          q := QueueNeighbours(q, n, colorNow);
          qpar := qpar + Repeat(k, |Spread(n, colorNow)|);
        } else {
          FillSkip(b0, Pos(row, col), board, c.matrix, q0, qpar0, mpar, i);
        }
        i := i + 1;
      }
      FillBound(b0, Pos(row, col), board, c.matrix, q, qpar, mpar, i);
      landed := board;
      FillDone(b0, Pos(row, col), c.matrix, mpar);
    }

    /** The fills of collided along `lastRowRemoved`, one per column from
        left to right on the board the earlier fills left, keeping the
        clumps that took a cell. */
    method CollectClumps(lastRowRemoved: int) returns (clumps: seq<Clump>, ghost ms: seq<seq<ClumpNode>>)
      requires Valid() && 0 <= lastRowRemoved < Rows
      modifies this
      ensures Valid()
      ensures Fragmentation(old(landed), lastRowRemoved, ms, landed)
      ensures |clumps| == |ms|
      ensures forall k :: 0 <= k < |clumps| ==> fresh(clumps[k]) && clumps[k].matrix == ms[k]
      ensures forall j, k :: 0 <= j < k < |clumps| ==> clumps[j] != clumps[k]
      ensures score == old(score) && newTet == old(newTet)
    {
      ghost var b0 := landed;
      clumps, ms := [], [];
      FragStart(b0, lastRowRemoved);
      var col := 0;
      while col < |landed[lastRowRemoved]|
        invariant Valid() && 0 <= col <= Cols
        invariant FragState(b0, lastRowRemoved, ms, landed, col)
        invariant |clumps| == |ms|
        invariant forall k :: 0 <= k < |clumps| ==> fresh(clumps[k]) && clumps[k].matrix == ms[k]
        invariant forall j, k :: 0 <= j < k < |clumps| ==> clumps[j] != clumps[k]
        invariant score == old(score) && newTet == old(newTet)
      {
        clumps, ms := FillColumn(b0, lastRowRemoved, col, clumps, ms);
        col := col + 1;
      }
      FragDone(b0, lastRowRemoved, ms, landed);
    }

    /** One pass of collided's column loop: the fill from (row, col), and
        the clump appended when it took a cell. */
    method FillColumn(ghost b0: Matrix, row: int, col: int, clumps: seq<Clump>, ghost ms: seq<seq<ClumpNode>>)
      returns (clumps': seq<Clump>, ghost ms': seq<seq<ClumpNode>>)
      requires Valid() && 0 <= col < Cols && FragState(b0, row, ms, landed, col)
      requires |clumps| == |ms| && forall k :: 0 <= k < |clumps| ==> clumps[k].matrix == ms[k]
      requires forall j, k :: 0 <= j < k < |clumps| ==> clumps[j] != clumps[k]
      modifies this
      ensures Valid() && FragState(b0, row, ms', landed, col + 1)
      ensures |clumps'| == |ms'| && forall k :: 0 <= k < |clumps'| ==> clumps'[k].matrix == ms'[k]
      ensures forall j, k :: 0 <= j < k < |clumps'| ==> clumps'[j] != clumps'[k]
      ensures forall k :: 0 <= k < |clumps'| ==> k < |clumps| ==> clumps'[k] == clumps[k]
      ensures forall k :: 0 <= k < |clumps'| ==> k >= |clumps| ==> fresh(clumps'[k])
      ensures score == old(score) && newTet == old(newTet)
    {
      ghost var before := landed;
      var c := FloodFill(row, col);
      if c.Size() > 0 {
        FragStepTake(b0, row, ms, before, col, c.matrix, landed);
        clumps' := clumps + [c];
        ms' := ms + [c.matrix];
      } else {
        FragStepEmpty(b0, row, ms, before, col, landed);
        clumps', ms' := clumps, ms;
      }
    }
  }

  /** The four pushes of collided's flood fill for a taken node: left,
      right, up and down neighbours, guarded by column > 0, column < 15,
      row > 0 and row < 15. */
  method QueueNeighbours(q: seq<ClumpNode>, n: ClumpNode, colorNow: int) returns (q': seq<ClumpNode>)
    ensures q' == q + Spread(n, colorNow)
  {
    q' := q;
    if n.col > 0 {
      q' := q' + [ClumpNode(n.row, n.col - 1, colorNow)];
    }
    if n.col < 15 {
      q' := q' + [ClumpNode(n.row, n.col + 1, colorNow)];
    }
    if n.row > 0 {
      q' := q' + [ClumpNode(n.row - 1, n.col, colorNow)];
    }
    if n.row < 15 {
      q' := q' + [ClumpNode(n.row + 1, n.col, colorNow)];
    }
  }

  /** The loop of collided from row `start` to the bottom: a full row is
      spliced out and a zero row unshifted on top, without re-checking the
      row index that now holds the next row up. */
  method ScanFullRows(b0: Matrix, start: nat) returns (board: Matrix, removed: nat, lastRowRemoved: int)
    ensures board == ClearRows(b0, start)
    ensures removed == Cleared(b0, start)
    ensures lastRowRemoved == LastRemoved(b0, start)
  {
    var s := ScanStart(b0, start);
    board, removed := b0, 0;
    lastRowRemoved := -1;
    var row := start;
    ghost var done := s;
    while row < |board|
      invariant start <= row && |board| == |b0|
      invariant done == ScanStart(b0, row)
      invariant board == ScanState(b0, s, done)
      invariant removed == FullCount(b0, s, done)
      invariant lastRowRemoved == LastFull(b0, s, done)
    {
      ScanRowUnchanged(b0, s, row);
      done := row + 1;
      var line := board[row];
      var isFilled := true;
      var col := 0;
      while col < |line|
        invariant 0 <= col <= |line|
        invariant isFilled == forall c :: 0 <= c < col ==> line[c] != 0
      {
        if line[col] == 0 {
          isFilled := false;
        }
        col := col + 1;
      }
      if isFilled {
        board := [ZeroRow] + board[..row] + board[row + 1..];
        lastRowRemoved := row;
        removed := removed + 1;
      }
      row := row + 1;
    }
    ScanDone(b0, start);
  }
}
