/** What collided's flood fills take: one fill is a connected, single-colour
    region closed under same-colour neighbours; the fills along the last
    removed row take every non-zero cell of that row, each cell at most once. */
module Fill {
  import opened Catalog
  import opened Board
  import opened Clumps

  /** The position is a cell of the 16 x 10 board. */
  predicate OnBoardPos(p: Pos)
  {
    0 <= p.row < Rows && 0 <= p.col < Cols
  }

  /** The two positions are 4-neighbours. */
  predicate Adjacent(a: Pos, b: Pos)
  {
    (a.row == b.row && (a.col - b.col == 1 || b.col - a.col == 1)) ||
    (a.col == b.col && (a.row - b.row == 1 || b.row - a.row == 1))
  }

  /** The positions of the nodes. */
  function Cells(ns: seq<ClumpNode>): set<Pos>
  {
    set i | 0 <= i < |ns| :: PosOf(ns[i])
  }

  /** The positions of all nodes of all clumps. */
  function AllCells(ms: seq<seq<ClumpNode>>): set<Pos>
  {
    if ms == [] then {} else AllCells(ms[..|ms| - 1]) + Cells(ms[|ms| - 1])
  }

  /** `after` is the board `b` with the cells of `taken` set to 0. */
  ghost predicate ZeroedAt(after: Matrix, b: Matrix, taken: set<Pos>)
  {
    IsBoard(after) && IsBoard(b) &&
    forall R, C :: 0 <= R < Rows && 0 <= C < Cols ==>
      after[R][C] == if Pos(R, C) in taken then 0 else b[R][C]
  }

  /** `ns` is what one flood fill from `seed` takes on board `b`: nothing when
      the seed cell is 0, otherwise the seed first, then distinct cells of the
      seed's colour, each a neighbour of an earlier one, and every
      same-coloured neighbour of a taken cell is taken. */
  ghost predicate IsFill(b: Matrix, seed: Pos, ns: seq<ClumpNode>)
    requires IsBoard(b) && OnBoardPos(seed)
  {
    var colour := b[seed.row][seed.col];
    (ns == [] <==> colour <= 0) &&
    (ns != [] ==> PosOf(ns[0]) == seed) &&
    Distinct(ns) &&
    (forall i :: 0 <= i < |ns| ==> OnBoard(ns[i]) && ns[i].val == colour && b[ns[i].row][ns[i].col] == colour) &&
    (forall j :: 0 < j < |ns| ==> exists i :: 0 <= i < j && Adjacent(PosOf(ns[i]), PosOf(ns[j]))) &&
    (forall i, m :: 0 <= i < |ns| && OnBoardPos(m) && Adjacent(PosOf(ns[i]), m) && b[m.row][m.col] == colour ==>
       m in Cells(ns))
  }

  /** A set of non-zero cells that contains every same-coloured neighbour of its cells. */
  ghost predicate ClosedSet(b: Matrix, taken: set<Pos>)
    requires IsBoard(b)
  {
    (forall t :: t in taken ==> OnBoardPos(t) && b[t.row][t.col] > 0) &&
    (forall t, m :: t in taken && OnBoardPos(m) && Adjacent(t, m) && b[m.row][m.col] == b[t.row][t.col] ==> m in taken)
  }

  lemma FillWellFormed(b: Matrix, seed: Pos, ns: seq<ClumpNode>)
    requires IsBoard(b) && OnBoardPos(seed) && IsFill(b, seed, ns) && ns != []
    ensures WellFormed(ns)
  {
  }

  /** The fragments made of the clumps, in order. */
  function Fragments(ms: seq<seq<ClumpNode>>): seq<Fragment>
  {
    seq(|ms|, k requires 0 <= k < |ms| => Fragment(ClumpShape(ms[k]), BoxTopLeft(ms[k])))
  }

  /** Every clump's fragment lies on the board and has a cell, so it can fall. */
  lemma FragmentsDroppable(ms: seq<seq<ClumpNode>>)
    requires forall k :: 0 <= k < |ms| ==> WellFormed(ms[k])
    ensures forall k :: 0 <= k < |Fragments(ms)| ==> Droppable(Fragments(ms)[k])
  {
    forall k | 0 <= k < |ms| ensures Droppable(Fragments(ms)[k]) {
      ClumpShapePlaced(ms[k]);
    }
  }

  /** The fragments of well-formed clumps dropped one after the other. */
  function DropClumps(b: Matrix, ms: seq<seq<ClumpNode>>): Landing
    requires forall k :: 0 <= k < |ms| ==> WellFormed(ms[k])
  {
    FragmentsDroppable(ms);
    DropFirst(b, Fragments(ms), |ms|)
  }

  /** The clumps of collided's fills along row `row` of `b`, one fill per
      column from left to right, keeping the non-empty ones: each is a fill
      of `b` seeded on the row at its leftmost row cell, the seeds go left to
      right, no cell is in two clumps, every non-zero cell of the row is in
      one, and `rest` is `b` with all of their cells zeroed. */
  ghost predicate Fragmentation(b: Matrix, row: int, ms: seq<seq<ClumpNode>>, rest: Matrix)
  {
    IsBoard(b) && 0 <= row < Rows &&
    (forall k :: 0 <= k < |ms| ==>
       ms[k] != [] && ms[k][0].row == row && OnBoard(ms[k][0]) &&
       IsFill(b, PosOf(ms[k][0]), ms[k]) &&
       forall i :: 0 <= i < |ms[k]| && ms[k][i].row == row ==> ms[k][0].col <= ms[k][i].col) &&
    (forall j, k :: 0 <= j < k < |ms| ==> ms[j][0].col < ms[k][0].col) &&
    (forall j, k :: 0 <= j < k < |ms| ==> Cells(ms[j]) !! Cells(ms[k])) &&
    (forall c :: 0 <= c < Cols && b[row][c] > 0 ==> Pos(row, c) in AllCells(ms)) &&
    ZeroedAt(rest, b, AllCells(ms))
  }

  lemma FragmentationWellFormed(b: Matrix, row: int, ms: seq<seq<ClumpNode>>, rest: Matrix)
    requires Fragmentation(b, row, ms, rest)
    ensures forall k :: 0 <= k < |ms| ==> WellFormed(ms[k])
  {
    forall k | 0 <= k < |ms| ensures WellFormed(ms[k]) {
      FillWellFormed(b, PosOf(ms[k][0]), ms[k]);
    }
  }

  /** A fill made on a board from which a closed set was removed avoids
      that set and sees the original colours. */
  lemma FillAvoids(b0: Matrix, bk: Matrix, taken: set<Pos>, seed: Pos, ns: seq<ClumpNode>)
    requires IsBoard(b0) && OnBoardPos(seed)
    requires ZeroedAt(bk, b0, taken)
    requires IsFill(bk, seed, ns) && ns != []
    ensures bk[seed.row][seed.col] == b0[seed.row][seed.col] > 0
    ensures forall i :: 0 <= i < |ns| ==> PosOf(ns[i]) !in taken && b0[ns[i].row][ns[i].col] == bk[seed.row][seed.col]
    ensures Cells(ns) !! taken
  {
    assert PosOf(ns[0]) == seed;
    forall i | 0 <= i < |ns|
      ensures PosOf(ns[i]) !in taken && b0[ns[i].row][ns[i].col] == bk[seed.row][seed.col]
    {
      assert OnBoard(ns[i]) && bk[ns[i].row][ns[i].col] == bk[seed.row][seed.col];
    }
  }

  /** ... and is closed on the original board: a same-coloured neighbour in
      the removed set would have put the fill's cell in that set. */
  lemma FillClosedOnOriginal(b0: Matrix, bk: Matrix, taken: set<Pos>, seed: Pos, ns: seq<ClumpNode>)
    requires IsBoard(b0) && OnBoardPos(seed)
    requires ZeroedAt(bk, b0, taken) && ClosedSet(b0, taken)
    requires IsFill(bk, seed, ns) && ns != []
    ensures forall i, m ::
              0 <= i < |ns| && OnBoardPos(m) && Adjacent(PosOf(ns[i]), m) && b0[m.row][m.col] == b0[seed.row][seed.col]
              ==> m in Cells(ns)
  {
    FillAvoids(b0, bk, taken, seed, ns);
    var colour := bk[seed.row][seed.col];
    forall i, m | 0 <= i < |ns| && OnBoardPos(m) && Adjacent(PosOf(ns[i]), m) && b0[m.row][m.col] == colour
      ensures m in Cells(ns)
    {
      assert PosOf(ns[i]) !in taken && b0[ns[i].row][ns[i].col] == colour;
      assert Adjacent(m, PosOf(ns[i]));
      assert m !in taken;
      assert bk[m.row][m.col] == colour;
    }
  }

  /** A fill made on a board from which a closed set was removed is a fill of
      the original board, disjoint from the set, and the two together are
      again closed. */
  lemma FillLifts(b0: Matrix, bk: Matrix, taken: set<Pos>, seed: Pos, ns: seq<ClumpNode>)
    requires IsBoard(b0) && OnBoardPos(seed)
    requires ZeroedAt(bk, b0, taken) && ClosedSet(b0, taken)
    requires IsFill(bk, seed, ns) && ns != []
    ensures IsFill(b0, seed, ns)
    ensures Cells(ns) !! taken
    ensures ClosedSet(b0, taken + Cells(ns))
  {
    FillAvoids(b0, bk, taken, seed, ns);
    FillClosedOnOriginal(b0, bk, taken, seed, ns);
    var colour := b0[seed.row][seed.col];
    forall t | t in taken + Cells(ns) ensures OnBoardPos(t) && b0[t.row][t.col] > 0 {
      if t !in taken {
        var i :| 0 <= i < |ns| && PosOf(ns[i]) == t;
        assert OnBoard(ns[i]);
      }
    }
    forall t, m | t in taken + Cells(ns) && OnBoardPos(m) && Adjacent(t, m) && b0[m.row][m.col] == b0[t.row][t.col]
      ensures m in taken + Cells(ns)
    {
      if t !in taken {
        var i :| 0 <= i < |ns| && PosOf(ns[i]) == t;
        assert b0[t.row][t.col] == colour;
      }
    }
  }

  /** The clump is a fill of `b0` seeded on `row` at its leftmost row cell. */
  ghost predicate SeedOk(b0: Matrix, row: int, ns: seq<ClumpNode>)
    requires IsBoard(b0)
  {
    ns != [] && ns[0].row == row && OnBoard(ns[0]) &&
    IsFill(b0, PosOf(ns[0]), ns) &&
    forall i :: 0 <= i < |ns| && ns[i].row == row ==> ns[0].col <= ns[i].col
  }

  /** Each clump so far satisfies SeedOk, and the seeds go left to right,
      all left of `col`. */
  ghost predicate SeedsLeftOf(b0: Matrix, row: int, ms: seq<seq<ClumpNode>>, col: int)
    requires IsBoard(b0)
    decreases |ms|
  {
    ms == [] ||
    (SeedOk(b0, row, ms[|ms| - 1]) && ms[|ms| - 1][0].col < col &&
     SeedsLeftOf(b0, row, ms[..|ms| - 1], ms[|ms| - 1][0].col))
  }

  /** The recursive statement in quantified form. */
  lemma {:induction false} SeedsLeftOfAll(b0: Matrix, row: int, ms: seq<seq<ClumpNode>>, col: int)
    requires IsBoard(b0) && SeedsLeftOf(b0, row, ms, col)
    ensures forall k :: 0 <= k < |ms| ==> SeedOk(b0, row, ms[k]) && ms[k][0].col < col
    ensures forall j, k :: 0 <= j < k < |ms| ==> ms[j] != [] && ms[k] != [] && ms[j][0].col < ms[k][0].col
    decreases |ms|
  {
    if ms != [] {
      var pre := ms[..|ms| - 1];
      var last := ms[|ms| - 1];
      SeedsLeftOfAll(b0, row, pre, last[0].col);
      forall k | 0 <= k < |ms| ensures SeedOk(b0, row, ms[k]) && ms[k][0].col < col {
        if k < |pre| {
          assert ms[k] == pre[k];
        }
      }
      forall j, k | 0 <= j < k < |ms| ensures ms[j] != [] && ms[k] != [] && ms[j][0].col < ms[k][0].col {
        assert ms[j] == pre[j];
        if k < |pre| {
          assert ms[k] == pre[k];
        }
      }
    }
  }

  /** A bound that holds for `col` holds for any column right of it. */
  lemma SeedsLeftOfWiden(b0: Matrix, row: int, ms: seq<seq<ClumpNode>>, col: int, col': int)
    requires IsBoard(b0) && SeedsLeftOf(b0, row, ms, col) && col <= col'
    ensures SeedsLeftOf(b0, row, ms, col')
  {
  }

  /** No cell is in two clumps: each clump is disjoint from all before it. */
  ghost predicate PairwiseDisjoint(ms: seq<seq<ClumpNode>>)
    decreases |ms|
  {
    ms == [] || (PairwiseDisjoint(ms[..|ms| - 1]) && Cells(ms[|ms| - 1]) !! AllCells(ms[..|ms| - 1]))
  }

  /** The recursive statement in quantified form. */
  lemma {:induction false} PairwiseDisjointAll(ms: seq<seq<ClumpNode>>)
    requires PairwiseDisjoint(ms)
    ensures forall j, k :: 0 <= j < k < |ms| ==> Cells(ms[j]) !! Cells(ms[k])
    decreases |ms|
  {
    if ms != [] {
      var pre := ms[..|ms| - 1];
      PairwiseDisjointAll(pre);
      forall j, k | 0 <= j < k < |ms| ensures Cells(ms[j]) !! Cells(ms[k]) {
        assert ms[j] == pre[j];
        if k == |ms| - 1 {
          AllCellsHas(pre, j);
        } else {
          assert ms[k] == pre[k];
        }
      }
    }
  }

  /** Every non-zero cell of `row` left of `col` is in a clump. */
  ghost predicate RowTakenLeftOf(b0: Matrix, row: int, ms: seq<seq<ClumpNode>>, col: int)
    requires IsBoard(b0) && 0 <= row < Rows && col <= Cols
  {
    forall c :: 0 <= c < col && b0[row][c] > 0 ==> Pos(row, c) in AllCells(ms)
  }

  /** The column loop of collided after the fills from columns 0..col-1
      of row `row`: the non-empty clumps so far are fills of the cleared
      board `b0`, pairwise disjoint, seeded left to right at their leftmost
      row cell, their union is closed, and `bk` is `b0` without it. */
  ghost predicate FragState(b0: Matrix, row: int, ms: seq<seq<ClumpNode>>, bk: Matrix, col: int)
  {
    IsBoard(b0) && 0 <= row < Rows && 0 <= col <= Cols &&
    ZeroedAt(bk, b0, AllCells(ms)) && ClosedSet(b0, AllCells(ms)) &&
    SeedsLeftOf(b0, row, ms, col) && PairwiseDisjoint(ms) && RowTakenLeftOf(b0, row, ms, col)
  }

  lemma FragStart(b0: Matrix, row: int)
    requires IsBoard(b0) && 0 <= row < Rows
    ensures FragState(b0, row, [], b0, 0)
  {
  }

  lemma FragDone(b0: Matrix, row: int, ms: seq<seq<ClumpNode>>, bk: Matrix)
    requires FragState(b0, row, ms, bk, Cols)
    ensures Fragmentation(b0, row, ms, bk)
  {
    SeedsLeftOfAll(b0, row, ms, Cols);
    PairwiseDisjointAll(ms);
  }

  lemma AllCellsAppend(ms: seq<seq<ClumpNode>>, ns: seq<ClumpNode>)
    ensures AllCells(ms + [ns]) == AllCells(ms) + Cells(ns)
  {
    assert (ms + [ns])[..|ms|] == ms;
  }

  lemma {:induction false} AllCellsHas(ms: seq<seq<ClumpNode>>, k: int)
    requires 0 <= k < |ms|
    ensures Cells(ms[k]) <= AllCells(ms)
    decreases |ms|
  {
    if k < |ms| - 1 {
      AllCellsHas(ms[..|ms| - 1], k);
    }
  }

  /** Zeroing two sets one after the other zeroes their union. */
  lemma ZeroedAtCompose(b2: Matrix, b1: Matrix, b0: Matrix, a: set<Pos>, b: set<Pos>)
    requires ZeroedAt(b1, b0, a) && ZeroedAt(b2, b1, b)
    ensures ZeroedAt(b2, b0, a + b)
  {
  }

  /** One more column: the fill from (row, col) on the board left so far
      joins the clumps when it is not empty. */
  lemma FragStep(b0: Matrix, row: int, ms: seq<seq<ClumpNode>>, bk: Matrix, col: int,
                 ns: seq<ClumpNode>, bk': Matrix)
    requires FragState(b0, row, ms, bk, col) && col < Cols
    requires IsBoard(bk) && IsFill(bk, Pos(row, col), ns) && ZeroedAt(bk', bk, Cells(ns))
    ensures FragState(b0, row, if ns == [] then ms else ms + [ns], bk', col + 1)
  {
    if ns == [] {
      FragStepEmpty(b0, row, ms, bk, col, bk');
    } else {
      FragStepTake(b0, row, ms, bk, col, ns, bk');
    }
  }

  /** An empty fill: its seed cell is 0 or already taken. */
  lemma FragStepEmpty(b0: Matrix, row: int, ms: seq<seq<ClumpNode>>, bk: Matrix, col: int, bk': Matrix)
    requires FragState(b0, row, ms, bk, col) && col < Cols
    requires IsBoard(bk) && IsFill(bk, Pos(row, col), []) && ZeroedAt(bk', bk, Cells([]))
    ensures FragState(b0, row, ms, bk', col + 1)
  {
    ZeroedAtCompose(bk', bk, b0, AllCells(ms), Cells([]));
    assert AllCells(ms) + Cells([]) == AllCells(ms);
    SeedsLeftOfWiden(b0, row, ms, col, col + 1);
    EmptySeedTaken(b0, bk, AllCells(ms), Pos(row, col));
    RowTakenExtend(b0, row, ms, col);
  }

  /** A seed cell that reads 0 now but did not on `b0` was zeroed by an
      earlier fill. */
  lemma EmptySeedTaken(b0: Matrix, bk: Matrix, taken: set<Pos>, seed: Pos)
    requires ZeroedAt(bk, b0, taken) && OnBoardPos(seed) && IsFill(bk, seed, [])
    ensures b0[seed.row][seed.col] > 0 ==> seed in taken
  {
    assert bk[seed.row][seed.col] <= 0;
  }

  lemma RowTakenExtend(b0: Matrix, row: int, ms: seq<seq<ClumpNode>>, col: int)
    requires IsBoard(b0) && 0 <= row < Rows && 0 <= col < Cols && RowTakenLeftOf(b0, row, ms, col)
    requires b0[row][col] > 0 ==> Pos(row, col) in AllCells(ms)
    ensures RowTakenLeftOf(b0, row, ms, col + 1)
  {
  }

  lemma FragStepTake(b0: Matrix, row: int, ms: seq<seq<ClumpNode>>, bk: Matrix, col: int,
                     ns: seq<ClumpNode>, bk': Matrix)
    requires FragState(b0, row, ms, bk, col) && col < Cols
    requires IsBoard(bk) && IsFill(bk, Pos(row, col), ns) && ZeroedAt(bk', bk, Cells(ns)) && ns != []
    ensures FragState(b0, row, ms + [ns], bk', col + 1)
  {
    ZeroedAtCompose(bk', bk, b0, AllCells(ms), Cells(ns));
    FillLifts(b0, bk, AllCells(ms), Pos(row, col), ns);
    AllCellsAppend(ms, ns);
    FragStepSeeds(b0, row, ms, col, ns);
    FragStepDisjoint(ms, ns);
    FragStepRow(b0, row, ms, col, ns);
  }

  lemma FragStepRow(b0: Matrix, row: int, ms: seq<seq<ClumpNode>>, col: int, ns: seq<ClumpNode>)
    requires IsBoard(b0) && 0 <= row < Rows && 0 <= col < Cols
    requires RowTakenLeftOf(b0, row, ms, col)
    requires ns != [] && PosOf(ns[0]) == Pos(row, col)
    ensures RowTakenLeftOf(b0, row, ms + [ns], col + 1)
  {
    AllCellsAppend(ms, ns);
    assert Pos(row, col) in Cells(ns);
  }

  /** The new clump is seeded at its leftmost row cell: every row cell left
      of the seed is already in an earlier clump or empty. */
  lemma FragStepSeeds(b0: Matrix, row: int, ms: seq<seq<ClumpNode>>, col: int, ns: seq<ClumpNode>)
    requires IsBoard(b0) && 0 <= row < Rows && 0 <= col < Cols
    requires SeedsLeftOf(b0, row, ms, col) && RowTakenLeftOf(b0, row, ms, col)
    requires IsFill(b0, Pos(row, col), ns) && ns != [] && Cells(ns) !! AllCells(ms)
    ensures SeedsLeftOf(b0, row, ms + [ns], col + 1)
  {
    forall i | 0 <= i < |ns| && ns[i].row == row ensures col <= ns[i].col {
      assert PosOf(ns[i]) in Cells(ns);
      assert PosOf(ns[i]) !in AllCells(ms);
      assert b0[ns[i].row][ns[i].col] == b0[row][col];
    }
    assert SeedOk(b0, row, ns);
    assert (ms + [ns])[..|ms|] == ms;
  }

  lemma FragStepDisjoint(ms: seq<seq<ClumpNode>>, ns: seq<ClumpNode>)
    requires PairwiseDisjoint(ms) && Cells(ns) !! AllCells(ms)
    ensures PairwiseDisjoint(ms + [ns])
  {
    assert (ms + [ns])[..|ms|] == ms;
  }

  // ---------------------------------------------------------------------------
  // The flood fill's queue
  // ---------------------------------------------------------------------------

  /** Queued nodes stay within rows 0..15 and columns 0..10 (the fill pushes
      a right neighbour while the column is below 15) and carry the colour. */
  ghost predicate QueueOk(q: seq<ClumpNode>, colour: int)
  {
    forall k :: 0 <= k < |q| ==> 0 <= q[k].row < Rows && 0 <= q[k].col <= Cols && q[k].val == colour
  }

  /** `par` names, for every node after the first, an earlier neighbour. */
  ghost predicate Linked(ns: seq<ClumpNode>, par: seq<nat>)
  {
    |par| == |ns| &&
    forall j :: 0 < j < |ns| ==> par[j] < j && Adjacent(PosOf(ns[par[j]]), PosOf(ns[j]))
  }

  /** `qpar` names, for every queued node, a taken neighbour. */
  ghost predicate QueueLinked(ns: seq<ClumpNode>, q: seq<ClumpNode>, qpar: seq<nat>)
  {
    |qpar| == |q| &&
    forall k :: 0 <= k < |q| ==> qpar[k] < |ns| && Adjacent(PosOf(ns[qpar[k]]), PosOf(q[k]))
  }

  /** Every same-coloured board neighbour of a taken node is taken or still queued. */
  ghost predicate Frontier(b0: Matrix, ns: seq<ClumpNode>, q: seq<ClumpNode>, colour: int)
    requires IsBoard(b0)
  {
    forall j, m :: 0 <= j < |ns| && OnBoardPos(m) && Adjacent(PosOf(ns[j]), m) && b0[m.row][m.col] == colour ==>
      m in Cells(ns) || ClumpNode(m.row, m.col, colour) in q
  }

  /** The nodes the fill pushes for a taken node, in the order it pushes them. */
  function Spread(n: ClumpNode, colour: int): seq<ClumpNode>
  {
    (if n.col > 0 then [ClumpNode(n.row, n.col - 1, colour)] else []) +
    (if n.col < 15 then [ClumpNode(n.row, n.col + 1, colour)] else []) +
    (if n.row > 0 then [ClumpNode(n.row - 1, n.col, colour)] else []) +
    (if n.row < 15 then [ClumpNode(n.row + 1, n.col, colour)] else [])
  }

  /** Every pushed node is a neighbour, and every board neighbour is pushed. */
  lemma SpreadSpec(n: ClumpNode, colour: int)
    requires OnBoard(n)
    ensures |Spread(n, colour)| <= 4
    ensures QueueOk(Spread(n, colour), colour)
    ensures forall k :: 0 <= k < |Spread(n, colour)| ==> Adjacent(PosOf(n), PosOf(Spread(n, colour)[k]))
    ensures forall m :: OnBoardPos(m) && Adjacent(PosOf(n), m) ==> ClumpNode(m.row, m.col, colour) in Spread(n, colour)
  {
  }

  lemma CellsAppend(ns: seq<ClumpNode>, n: ClumpNode)
    ensures Cells(ns + [n]) == Cells(ns) + {PosOf(n)}
  {
    var ns' := ns + [n];
    assert PosOf(ns'[|ns|]) == PosOf(n);
    forall p | p in Cells(ns) ensures p in Cells(ns') {
      var i :| 0 <= i < |ns| && PosOf(ns[i]) == p;
      assert PosOf(ns'[i]) == p;
    }
  }

  /** Popping a node that is not taken keeps the frontier: the node is off
      the board, already taken or of another colour. */
  lemma FrontierSkip(b0: Matrix, ns: seq<ClumpNode>, q: seq<ClumpNode>, colour: int)
    requires IsBoard(b0) && Frontier(b0, ns, q, colour) && q != []
    requires OnBoardPos(PosOf(q[0])) ==> PosOf(q[0]) in Cells(ns) || b0[q[0].row][q[0].col] != colour
    requires q[0].val == colour
    ensures Frontier(b0, ns, q[1..], colour)
  {
    forall j, m | 0 <= j < |ns| && OnBoardPos(m) && Adjacent(PosOf(ns[j]), m) && b0[m.row][m.col] == colour
      ensures m in Cells(ns) || ClumpNode(m.row, m.col, colour) in q[1..]
    {
      var e := ClumpNode(m.row, m.col, colour);
      if m !in Cells(ns) {
        assert q == [q[0]] + q[1..];
        assert e != q[0];
      }
    }
  }

  /** Taking the popped node and pushing its spread keeps the frontier. */
  lemma FrontierTake(b0: Matrix, ns: seq<ClumpNode>, q: seq<ClumpNode>, colour: int)
    requires IsBoard(b0) && Frontier(b0, ns, q, colour) && q != [] && OnBoard(q[0]) && q[0].val == colour
    ensures Frontier(b0, ns + [q[0]], q[1..] + Spread(q[0], colour), colour)
  {
    var n := q[0];
    var ns', q' := ns + [n], q[1..] + Spread(n, colour);
    CellsAppend(ns, n);
    SpreadSpec(n, colour);
    forall j, m | 0 <= j < |ns'| && OnBoardPos(m) && Adjacent(PosOf(ns'[j]), m) && b0[m.row][m.col] == colour
      ensures m in Cells(ns') || ClumpNode(m.row, m.col, colour) in q'
    {
      var e := ClumpNode(m.row, m.col, colour);
      if j == |ns| {
        assert e in Spread(n, colour);
      } else {
        assert ns'[j] == ns[j];
        if m !in Cells(ns) && e !in q[1..] {
          assert q == [q[0]] + q[1..];
          assert e == n;
        }
      }
    }
  }

  /** The state of the flood fill from `seed` on `b0` after `i` pops:
      `board` is `b0` with the taken nodes `ns` zeroed, `q` the queue;
      `qpar` and `par` are proof bookkeeping naming taken neighbours. */
  ghost predicate FillState(b0: Matrix, seed: Pos, board: Matrix, ns: seq<ClumpNode>,
                            q: seq<ClumpNode>, qpar: seq<nat>, par: seq<nat>, i: nat)
    requires IsBoard(b0) && OnBoardPos(seed)
  {
    var colour := b0[seed.row][seed.col];
    ZeroedAt(board, b0, Cells(ns)) &&
    QueueOk(q, colour) &&
    (i == 0 ==> q == [ClumpNode(seed.row, seed.col, colour)] && ns == [] && |qpar| == 1) &&
    (colour <= 0 ==> ns == []) &&
    (i > 0 && colour > 0 ==> ns != []) &&
    (ns != [] ==> PosOf(ns[0]) == seed) &&
    Distinct(ns) &&
    (forall j :: 0 <= j < |ns| ==> OnBoard(ns[j]) && ns[j].val == colour && b0[ns[j].row][ns[j].col] == colour) &&
    Linked(ns, par) &&
    (i > 0 ==> QueueLinked(ns, q, qpar)) &&
    Frontier(b0, ns, q, colour) &&
    i + |q| <= 1 + 4 * |ns| &&
    CellCount(board, 0) + |ns| == CellCount(b0, 0)
  }

  lemma FillStart(b0: Matrix, seed: Pos)
    requires IsBoard(b0) && OnBoardPos(seed)
    ensures FillState(b0, seed, b0, [], [ClumpNode(seed.row, seed.col, b0[seed.row][seed.col])], [0], [], 0)
  {
  }

  /** The cell the popped node names is taken exactly when it is on the
      board (column 10 reads as undefined) and holds the colour, not 0. */
  predicate Takes(board: Matrix, n: ClumpNode, colour: int)
    requires 0 <= n.row < |board|
  {
    0 <= n.col < |board[n.row]| && board[n.row][n.col] == colour && board[n.row][n.col] > 0
  }

  /** While the fill runs, its queue holds at most 641 nodes' worth of pops. */
  lemma FillBound(b0: Matrix, seed: Pos, board: Matrix, ns: seq<ClumpNode>,
                  q: seq<ClumpNode>, qpar: seq<nat>, par: seq<nat>, i: nat)
    requires IsBoard(b0) && OnBoardPos(seed)
    requires FillState(b0, seed, board, ns, q, qpar, par, i)
    ensures i + |q| <= 641
  {
    CellCountBound(b0, 0);
  }

  /** Popping a node that is not taken. */
  lemma FillSkip(b0: Matrix, seed: Pos, board: Matrix, ns: seq<ClumpNode>,
                 q: seq<ClumpNode>, qpar: seq<nat>, par: seq<nat>, i: nat)
    requires IsBoard(b0) && OnBoardPos(seed)
    requires FillState(b0, seed, board, ns, q, qpar, par, i) && q != []
    requires !Takes(board, q[0], b0[seed.row][seed.col])
    ensures FillState(b0, seed, board, ns, q[1..], qpar[1..], par, i + 1)
  {
    var colour := b0[seed.row][seed.col];
    if colour > 0 {
      if OnBoardPos(PosOf(q[0])) && PosOf(q[0]) !in Cells(ns) {
        assert board[q[0].row][q[0].col] == b0[q[0].row][q[0].col];
      }
      FrontierSkip(b0, ns, q, colour);
    }
  }

  /** The parents of the queued spread: the index of the newly taken node. */
  function Repeat(k: nat, n: nat): seq<nat>
  {
    seq(n, _ => k)
  }

  /** Taking the popped node: the clump grows by it, its cell is zeroed and
      its spread is queued. */
  lemma FillTake(b0: Matrix, seed: Pos, board: Matrix, ns: seq<ClumpNode>,
                 q: seq<ClumpNode>, qpar: seq<nat>, par: seq<nat>, i: nat)
    requires IsBoard(b0) && OnBoardPos(seed)
    requires FillState(b0, seed, board, ns, q, qpar, par, i) && q != []
    requires Takes(board, q[0], b0[seed.row][seed.col])
    ensures FillState(b0, seed, board[q[0].row := board[q[0].row][q[0].col := 0]], ns + [q[0]],
                      q[1..] + Spread(q[0], b0[seed.row][seed.col]),
                      qpar[1..] + Repeat(|ns|, |Spread(q[0], b0[seed.row][seed.col])|),
                      par + [qpar[0]], i + 1)
  {
    var colour := b0[seed.row][seed.col];
    var n := q[0];
    var board' := board[n.row := board[n.row][n.col := 0]];
    var ns' := ns + [n];
    var sp := Spread(n, colour);
    var q' := q[1..] + sp;
    var qpar' := qpar[1..] + Repeat(|ns|, |sp|);
    assert OnBoard(n);
    assert PosOf(n) !in Cells(ns) by {
      assert board[n.row][n.col] != 0;
    }
    CellsAppend(ns, n);
    CellCountZero(board, n.row, n.col);
    SpreadSpec(n, colour);
    QueueOkAppend(q[1..], sp, colour);
    FrontierTake(b0, ns, q, colour);
    FillTakeZeroed(b0, board, ns, n);
    FillTakeNodes(b0, seed, ns, n);
    FillTakeLinks(ns, q, qpar, par, i);
    assert ns == [] ==> i == 0;
    assert PosOf(ns'[0]) == seed;
    assert i + 1 + |q'| <= 1 + 4 * |ns'|;
  }

  lemma QueueOkAppend(q: seq<ClumpNode>, r: seq<ClumpNode>, colour: int)
    requires QueueOk(q, colour) && QueueOk(r, colour)
    ensures QueueOk(q + r, colour)
  {
    forall k | 0 <= k < |q + r|
      ensures 0 <= (q + r)[k].row < Rows && 0 <= (q + r)[k].col <= Cols && (q + r)[k].val == colour
    {
      if k < |q| { assert (q + r)[k] == q[k]; } else { assert (q + r)[k] == r[k - |q|]; }
    }
  }

  lemma FillTakeZeroed(b0: Matrix, board: Matrix, ns: seq<ClumpNode>, n: ClumpNode)
    requires ZeroedAt(board, b0, Cells(ns)) && OnBoard(n)
    ensures ZeroedAt(board[n.row := board[n.row][n.col := 0]], b0, Cells(ns + [n]))
  {
    CellsAppend(ns, n);
  }

  lemma FillTakeNodes(b0: Matrix, seed: Pos, ns: seq<ClumpNode>, n: ClumpNode)
    requires IsBoard(b0) && OnBoardPos(seed)
    requires Distinct(ns) && PosOf(n) !in Cells(ns)
    requires OnBoard(n) && n.val == b0[seed.row][seed.col] && b0[n.row][n.col] == b0[seed.row][seed.col]
    requires forall j :: 0 <= j < |ns| ==> OnBoard(ns[j]) && ns[j].val == b0[seed.row][seed.col] && b0[ns[j].row][ns[j].col] == b0[seed.row][seed.col]
    ensures Distinct(ns + [n])
    ensures forall j :: 0 <= j < |ns + [n]| ==>
              OnBoard((ns + [n])[j]) && (ns + [n])[j].val == b0[seed.row][seed.col] &&
              b0[(ns + [n])[j].row][(ns + [n])[j].col] == b0[seed.row][seed.col]
  {
    var ns' := ns + [n];
    forall i, j | 0 <= i < j < |ns'| ensures PosOf(ns'[i]) != PosOf(ns'[j]) {
      if j == |ns| {
        assert PosOf(ns[i]) in Cells(ns);
      } else {
        assert ns'[i] == ns[i] && ns'[j] == ns[j];
      }
    }
  }

  lemma FillTakeLinks(ns: seq<ClumpNode>, q: seq<ClumpNode>, qpar: seq<nat>, par: seq<nat>, i: nat)
    requires q != [] && Linked(ns, par)
    requires i > 0 ==> QueueLinked(ns, q, qpar)
    requires i == 0 ==> ns == [] && |qpar| == 1 && |q| == 1
    requires OnBoard(q[0])
    ensures Linked(ns + [q[0]], par + [qpar[0]])
    ensures forall colour :: QueueLinked(ns + [q[0]], q[1..] + Spread(q[0], colour), qpar[1..] + Repeat(|ns|, |Spread(q[0], colour)|))
  {
    var n := q[0];
    var ns' := ns + [n];
    forall colour ensures QueueLinked(ns', q[1..] + Spread(n, colour), qpar[1..] + Repeat(|ns|, |Spread(n, colour)|)) {
      SpreadSpec(n, colour);
      var sp := Spread(n, colour);
      var q', qpar' := q[1..] + sp, qpar[1..] + Repeat(|ns|, |sp|);
      forall k | 0 <= k < |q'| ensures qpar'[k] < |ns'| && Adjacent(PosOf(ns'[qpar'[k]]), PosOf(q'[k])) {
        if k < |q| - 1 {
          assert q'[k] == q[k + 1] && qpar'[k] == qpar[k + 1];
          assert ns'[qpar[k + 1]] == ns[qpar[k + 1]];
        } else {
          assert q'[k] == sp[k - |q| + 1] && qpar'[k] == |ns|;
        }
      }
    }
    forall j | 0 < j < |ns'| ensures (par + [qpar[0]])[j] < j && Adjacent(PosOf(ns'[(par + [qpar[0]])[j]]), PosOf(ns'[j])) {
      if j < |ns| {
        assert ns'[j] == ns[j] && ns'[par[j]] == ns[par[j]];
      } else {
        assert ns'[qpar[0]] == ns[qpar[0]];
      }
    }
  }

  /** What the fill's loop leaves when its queue runs empty is a fill. */
  lemma FillDone(b0: Matrix, seed: Pos, ns: seq<ClumpNode>, par: seq<nat>)
    requires IsBoard(b0) && OnBoardPos(seed)
    requires ns == [] <==> b0[seed.row][seed.col] <= 0
    requires ns != [] ==> PosOf(ns[0]) == seed
    requires Distinct(ns)
    requires forall j :: 0 <= j < |ns| ==>
               OnBoard(ns[j]) && ns[j].val == b0[seed.row][seed.col] && b0[ns[j].row][ns[j].col] == b0[seed.row][seed.col]
    requires Linked(ns, par)
    requires Frontier(b0, ns, [], b0[seed.row][seed.col])
    ensures IsFill(b0, seed, ns)
  {
    forall j | 0 < j < |ns| ensures exists i :: 0 <= i < j && Adjacent(PosOf(ns[i]), PosOf(ns[j])) {
      assert par[j] < j && Adjacent(PosOf(ns[par[j]]), PosOf(ns[j]));
    }
  }

  // ---------------------------------------------------------------------------
  // Counting non-zero cells
  // ---------------------------------------------------------------------------

  lemma {:induction false} RowCellsBound(row: seq<int>, i: nat)
    ensures RowCells(row, i) <= if i <= |row| then |row| - i else 0
    decreases |row| - i
  {
    if i < |row| {
      RowCellsBound(row, i + 1);
    }
  }

  /** A board has at most 160 non-zero cells. */
  lemma {:induction false} CellCountBound(b: Matrix, i: nat)
    requires IsBoard(b)
    ensures CellCount(b, i) <= if i <= |b| then Cols * (|b| - i) else 0
    decreases |b| - i
  {
    if i < |b| {
      RowCellsBound(b[i], 0);
      CellCountBound(b, i + 1);
    }
  }

  /** Zeroing a non-zero cell of a row removes one non-zero cell. */
  lemma {:induction false} RowCellsZero(row: seq<int>, i: nat, c: int)
    requires 0 <= c < |row| && row[c] != 0
    ensures RowCells(row[c := 0], i) == RowCells(row, i) - (if i <= c then 1 else 0)
    decreases |row| - i
  {
    if i < |row| {
      RowCellsZero(row, i + 1, c);
    }
  }

  lemma {:induction false} CellCountReplace(b: Matrix, i: nat, r: int, row: seq<int>)
    requires 0 <= r < |b|
    ensures CellCount(b[r := row], i) ==
            CellCount(b, i) + (if i <= r then RowCells(row, 0) - RowCells(b[r], 0) else 0)
    decreases |b| - i
  {
    if i < |b| {
      CellCountReplace(b, i + 1, r, row);
    }
  }

  /** Zeroing a non-zero cell of the board removes one non-zero cell. */
  lemma CellCountZero(b: Matrix, r: int, c: int)
    requires 0 <= r < |b| && 0 <= c < |b[r]| && b[r][c] != 0
    ensures CellCount(b[r := b[r][c := 0]], 0) == CellCount(b, 0) - 1
  {
    CellCountReplace(b, 0, r, b[r][c := 0]);
    RowCellsZero(b[r], 0, c);
  }
}
