# Tet.js game rules in Dafny

This project models the rules engine of a browser Tetris, the file
`js/Tet.js`. The board is `landed`, 16 rows of 10 cell colours, where 0 is
empty. A `Tet` is either a living piece (type 0..6, the user controls it)
or a fragment (type -1): the part of a landed piece left over after a row
clear. The model covers:

- the shape catalog (`getShapeMatrix`) and the perimeter lookup
  (`getPeriMatrix`);
- the `Tet` constructor, `changeShape` and `rotate`;
- the two collision scans and the three moves;
- the landing in `collided`:
  - the row-clear scan;
  - the flood fills along the last cleared row;
  - `Clump.computeShape`;
  - the drop of each fragment with `while (tmp.moveDown()) {}`.

The modules follow the program's structure:

| module | file | models |
|---|---|---|
| `Catalog` | catalog.dfy | the shape table and `getShapeMatrix` |
| `Perimeter` | perimeter.dfy | the outline table and the lookup of `getPeriMatrix` |
| `Board` | board.dfy | the pure rules over `landed`: collision scans as predicates, the merge, the result of the row clear, where a fall stops |
| `Clumps` | clump.dfy | `ClumpNode`, the `Clump` class and `computeShape` |
| `Fill` | fill.dfy | what a flood fill and the fragmentation of a row take, as predicates with the lemmas that carry them through the loops |
| `GameState` | game.dfy | the globals `landed`, `score` and `newTet` as a `Game` object, and the row-clear and flood-fill loops of `collided` that update it |
| `Pieces` | tet.dfy | the `Tet` class with its methods, including the landing |

The loops of the source remain `while` loops in methods. Each method is
proved against a pure definition in `Board`, `Clumps` or `Fill`, and the
lemmas state what those definitions mean.

- A collision scan returns true exactly when the piece does not fit.
- The row clear leaves no full row in the scanned range. It keeps the
  board's size, raises the score by the number of rows removed, and
  reports the last removed row.
- A flood fill takes a connected region of one colour, closed under
  same-coloured neighbours.
- The fills along a row take every non-zero cell of that row, and no cell
  twice.
- `computeShape`'s matrix, placed at its top-left, holds exactly the
  clump's cells.
- A falling fragment stops where the bottom scan first collides, within
  the height of the board.

## Model

| member | source | states |
|---|---|---|
| Catalog.ShapeMatrix | js/Tet.js:60-83 | the shape for a type and rotation is one of that type's table variants: the only one, variant rotation % 2, or variant rotation |
| Catalog.ShapeMatrixIsTetromino | js/Tet.js:63-82 | for every type 0..6 and rotation 0..3 the shape is non-empty, at most 4 by 4, has no empty row and exactly four non-zero cells, all of colour type + 1 |
| Catalog.TetrominoCells | js/Tet.js:63-71 | every row of a tetromino has 1 to 4 cells and every non-zero cell has the piece's colour |
| Perimeter.NormalizeCells | js/Tet.js:118-124 | the normalised copy has the shape's dimensions; positive cells become 1 and other cells are kept |
| Perimeter.FirstMatch | js/Tet.js:125-150 | the scan returns the first table index whose key matches, or -1 exactly when no key matches |
| Perimeter.PerimeterOfSpec | js/Tet.js:88-153 | the outline is [] exactly when no key matches the normalised shape; otherwise it is the outline of the first matching key |
| Perimeter.KeyMatchesIsEquality | js/Tet.js:127-144 | for a shape with at least one row and no empty row, the row-by-row match succeeds exactly when the normalised shape equals the key |
| Perimeter.RowsAcceptedAll | js/Tet.js:127-144 | the recursive row check accepts exactly when every remaining row has the key's length and values |
| Perimeter.EmptyShapeGetsFirstOutline | js/Tet.js:125-149 | an empty shape takes the outline of entry 0, because the row loop never runs |
| Perimeter.EmptyRowIsNotChecked | js/Tet.js:133-144 | a shape made of one empty row also takes entry 0: an empty row's column loop never compares anything |
| Perimeter.OutlinesNonEmpty | js/Tet.js:89-117 | no outline in the table is empty |
| Perimeter.CatalogPerimeterFound | js/Tet.js:89-117 | every catalog shape has a key equal to its normalised copy, and the lookup returns that entry's non-empty outline |
| Board.BotCollisionIff | js/Tet.js:196-216 | on any grid, the bottom scan collides exactly when the shape does not fit: some cell is below the last row, outside a row, or on a taken cell |
| Board.SideCollisionIff | js/Tet.js:217-240 | on the board, for a shape whose rows are on the board, the side scan collides exactly when the shape does not fit |
| Board.RotateCollisionIff | js/Tet.js:165-191 | on the board, the rotation scan (walls, floor, taken cells) collides exactly when the shape does not fit |
| Board.FitsIsPlaced | js/Tet.js:196-216 | a shape that fits the board has all its cells on the board |
| Board.StampCells | js/Tet.js:255-261 | merging a placed piece keeps the board's size, writes each non-zero shape cell at its position and leaves every other cell unchanged |
| Board.KeptRows | js/Tet.js:316-329 | the rows the scan keeps are the non-full rows of the scanned range, each taken from it, and every non-full row of the range is kept |
| Board.ClearRowsIsBoard | js/Tet.js:316-329 | the row clear keeps 16 rows of 10 cells |
| Board.ClearRowsScannedNotFull | js/Tet.js:316-329 | after the clear, no row below the added zero rows and the rows above the scan start is full: the scan visits every original row from its start once, although it does not re-check an index after a splice |
| Board.ClearRowsLeavesNoFullRow | js/Tet.js:316-329 | when no row above the scan start is full, no row of the cleared board is full |
| Board.ClearRowsNothingFull | js/Tet.js:316-329 | when no row is removed the board is unchanged |
| Board.LastFullSpec | js/Tet.js:322-325 | lastRowRemoved is -1 exactly when no row was full, and otherwise the index of a full row after which no row of the range is full |
| Board.ScanClosedForm | js/Tet.js:316-329 | after each step the scanned board is the zero rows on top, then the unscanned prefix, the kept rows, and the rows not yet reached |
| Board.FallBound | js/Tet.js:249-253 | a shape that can move down one more row still has that row on the board |
| Board.Settle | js/Tet.js:363 | a fall from p stops in p's column at the first row whose next row collides, and every row passed on the way was free |
| Board.SettleSteps | js/Tet.js:363 | a fall takes at most the board's height in moves |
| Board.LandFragmentIsBoard | js/Tet.js:363 | a fragment's landing keeps the board's dimensions |
| Board.DropFirstIsBoard | js/Tet.js:357-364 | landing fragments one after another keeps the board's dimensions |
| Clumps.MinRowSpec | js/Tet.js:281-285 | rowMin is at most 15, no node is above it, and it is a node's row unless it stayed at 15 |
| Clumps.MinColSpec | js/Tet.js:281-285 | colMin is at most 9, no node is left of it, and it is a node's column unless it stayed at 9 |
| Clumps.MaxRowSpec | js/Tet.js:286-291 | rowMax is at least 0, no node is below it, and it is a node's row unless it stayed at 0 |
| Clumps.MaxColSpec | js/Tet.js:286-291 | colMax is at least 0, no node is right of it, and it is a node's column unless it stayed at 0 |
| Clumps.FindMins | js/Tet.js:281-285 | the first loop of computeShape finds the least row and column, starting from 15 and 9 |
| Clumps.MakeRelative | js/Tet.js:286-291 | the second loop shifts every node by the minima and finds the greatest shifted row and column |
| Clumps.MakeZeros | js/Tet.js:292-298 | the third loop builds a (rowMax+1) by (colMax+1) zero matrix |
| Clumps.PaintNodes | js/Tet.js:299-301 | the fourth loop writes each shifted node's value at its position, later nodes winning |
| Clumps.ClumpShapeDims | js/Tet.js:292-298 | the shape has rowMax + 1 rows, each colMax + 1 long |
| Clumps.BoxIsTight | js/Tet.js:281-308 | for a well-formed clump the top-left is on the board and the box touches a node on each of its four sides |
| Clumps.ClumpShapeAtNode | js/Tet.js:299-301 | placing the shape at topLeft gives each node's value at the node's position |
| Clumps.ClumpShapeOffNode | js/Tet.js:292-301 | every entry of the shape that no node maps to is 0 |
| Clumps.ClumpShapeCovers | js/Tet.js:292-301 | every non-zero entry of the shape comes from a node |
| Clumps.ClumpShapePlaced | js/Tet.js:280-308 | a well-formed clump's shape has a cell, and at its top-left every cell is on the board |
| Clumps.Clump.constructor | js/Tet.js:271-276 | a clump starts at the given row and column with top-left (0, 0) and no nodes |
| Clumps.Clump.AddNode | js/Tet.js:277-279 | the node is appended and nothing else changes |
| Clumps.Clump.Size | js/Tet.js:309-311 | the size is 0 exactly when the clump has no nodes |
| Clumps.Clump.ComputeShape | js/Tet.js:280-308 | returns the bounding-box shape of the nodes and sets topLeft to the box's corner; the nodes become relative to it and the clump's start cell is unchanged |
| Fill.FillWellFormed | js/Tet.js:338-351 | a non-empty fill is a sequence of distinct board cells with non-zero colours |
| Fill.FillLifts | js/Tet.js:334-354 | a fill made after earlier fills zeroed a closed set is a fill of the board before them, disjoint from that set, and together they are closed again |
| Fill.SpreadSpec | js/Tet.js:345-348 | the pushes after a take are at most four neighbours of the cell, and every board neighbour is among them |
| Fill.FillBound | js/Tet.js:338 | pops so far plus the queue length never exceed 641, so the 1000-pop cap is never reached |
| Fill.FillDone | js/Tet.js:338-351 | what the fill loop has taken when its queue runs empty is a fill of the board |
| Fill.CellCountBound | js/Tet.js:338-351 | a board has at most 160 non-zero cells |
| Fill.CellCountZero | js/Tet.js:344 | zeroing a non-zero cell removes exactly one non-zero cell |
| Fill.FragmentationWellFormed | js/Tet.js:333-354 | every clump that fragmentation keeps is well formed |
| GameState.ScanFullRows | js/Tet.js:315-329 | the scan returns the cleared board, the number of rows removed and the last removed index, as the pure definitions give them |
| GameState.Game.ClearFullRows | js/Tet.js:315-329 | the board becomes the cleared board, the score rises by the rows removed, the last removed index is returned, and newTet is unchanged |
| GameState.Game.FloodFill | js/Tet.js:335-351 | the clump is a fill of the board from the seed; the board afterwards is the old one with exactly the clump's cells set to 0 |
| GameState.Game.FillColumn | js/Tet.js:334-353 | one column's fill, with its clump appended only when it took a cell, carries the fragmentation invariant one column on |
| GameState.Game.CollectClumps | js/Tet.js:333-354 | the clumps are the left-to-right fills along the row: each a fill seeded at its leftmost row cell, pairwise disjoint, covering every non-zero cell of the row; the board is left with all of them zeroed |
| GameState.QueueNeighbours | js/Tet.js:345-348 | the four guarded pushes append exactly the neighbour nodes of the spread, in order left, right, up, down |
| Pieces.NextRotation | js/Tet.js:161-163 | the next rotation is (rotation + 1) mod 4 and stays in 0..3 |
| Pieces.RotationChangesShape | js/Tet.js:60-83 | for every type but O, consecutive rotations have different shapes |
| Pieces.Tet.constructor | js/Tet.js:39-50 | a type in -1..6 is kept, anything else is replaced by the random type. A non-negative or missing argument gives a piece at (0, 4) with rotation 0, its rotation-0 tetromino as shape and a non-empty outline; otherwise the piece is empty |
| Pieces.Tet.ChangeShape | js/Tet.js:154-158 | the piece becomes a fragment with the given shape and the outline looked up for it |
| Pieces.ScanRotation | js/Tet.js:165-191 | the rotation scan reports a blocked cell exactly when the rotation collision predicate holds |
| Pieces.Tet.Rotate | js/Tet.js:159-195 | succeeds exactly when the candidate shape, the current rotation's shape, does not collide; then the shape is that candidate and the rotation steps on, otherwise nothing changes; topLeft never changes |
| Pieces.Tet.RotateIntended | js/Tet.js:159-195 | the same rotation with the next rotation's shape as candidate: a piece whose shape matches its rotation still does afterwards |
| Pieces.Tet.CheckBotCollision | js/Tet.js:196-216 | the nested scan with early return answers the bottom collision predicate |
| Pieces.Tet.CheckSideCollision | js/Tet.js:217-240 | the nested scan with early return answers the side collision predicate |
| Pieces.Tet.MoveLeft | js/Tet.js:241-244 | the row never changes; the column drops by one exactly when the side scan is clear there; shape, rotation and board are untouched |
| Pieces.Tet.MoveRight | js/Tet.js:245-248 | the row never changes; the column grows by one exactly when the side scan is clear there; shape, rotation and board are untouched |
| Pieces.MergeCells | js/Tet.js:255-261 | the merge loop writes the piece into the board as the stamp definition says |
| Pieces.Tet.MoveDown | js/Tet.js:249-265 | returns true exactly when there is no bottom collision one row down, and then only the row grows by one. Otherwise the piece is merged where it is and lands as collided says, and false is returned |
| Pieces.Tet.Collided | js/Tet.js:312-367 | always returns false; a living piece sets newTet. The full rows from the piece's top row are cleared; only for a living piece that removed a row are the clumps along the last removed row taken out and dropped in column order |
| Pieces.DropFragments | js/Tet.js:357-364 | the fragment loop leaves the board and score that dropping the clumps' fragments one after another gives |
| Pieces.DropNext | js/Tet.js:357-364 | one pass of the fragment loop extends the landed prefix of fragments by one |
| Pieces.DropClump | js/Tet.js:358-363 | a throwaway piece takes the clump's shape and top-left, becomes a fragment and lands as a single fragment landing says |
| Pieces.FallOne | js/Tet.js:363 | `while (tmp.moveDown()) {}` ends, with the board and score of the fragment's landing at the row where it settles |

## Left out

- Everything in index.php is not part of this model: drawing, the colour strings, keyboard input and the drop timer.
- `Object.prototype.clone` (js/Tet.js:15-23) is replaced by Dafny's value semantics for sequences.
- `Math.random` becomes a parameter. The constructor takes `randomKind`. The throwaway piece in the fragment loop picks any type by `:|`, which the model does not constrain.
- The throwaway piece's outline is left stale, which has no effect on the rules. The geometry of the outline polygons is not checked; the table is copied as written.
- `console.log` and `Tet.prototype.toString` are left out: they print or only return the shape.
- JavaScript numbers are unbounded `int`s here; every value the rules use is a small integer.
- Pieces.Tet.MoveDown: requires the piece's cells to be on the board. The JavaScript merge on a piece outside the board would throw on a missing row, or add a property to a row.
- Pieces.Tet.MoveLeft: requires the shape's rows to lie on the board. For a row outside the board, the side scan would throw on reading it.
- Pieces.Tet.MoveRight: requires the shape's rows to lie on the board. For a row outside the board, the side scan would throw on reading it.
- Pieces.Tet.Rotate: requires a type in 0..6. `getShapeMatrix` on a fragment would throw.
- Pieces.Tet.CheckBotCollision: requires a non-negative row, as every caller passes.
- The order of the landing follows the code. All clumps along the row are collected first, then every fragment is dropped. A fragment's drop never fragments again because its type is -1.
- `tmp.topLeft = clumps[i].topLeft` shares one object in JavaScript. moveDown replaces `topLeft` and never mutates it in place, so the model copies the value. Likewise the ClumpNode objects that computeShape rewrites are copied as values.
- The game loop that reads `newTet` and spawns the next piece is outside Tet.js and is not modelled.

## Findings

| source | as written | input that shows it | evidently intended | confidence | as-written member | corrected member |
|---|---|---|---|---|---|---|
| js/Tet.js:164 | `getShapeMatrix(this.type, potRot)` ignores its arguments and reads `this.rotation`, so the candidate is the current rotation's shape | a fresh J piece (type 1, rotation 0, shape `[[2,2,2],[0,0,2]]`) on an empty board: rotate succeeds, the rotation becomes 1, the shape stays `[[2,2,2],[0,0,2]]` instead of `[[0,2],[0,2],[2,2]]` | the candidate is the shape for `potRot`, so the shape always matches the rotation | high, not executed | Pieces.Tet.Rotate (with Pieces.RotationChangesShape: for every type but O the lagging shape differs from the rotation's) | Pieces.Tet.RotateIntended |
