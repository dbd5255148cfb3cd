# The 2048 / "512" game model in Dafny

This project models the game state of `model.py`, a variant of 2048 called "512":

- `Vec`, a (row, column) pair that is also a step;
- `Tile`, a numbered tile that records its own position;
- `Board`, a rows x cols grid of optional tiles that the game changes in place.

The core is the slide-and-merge algorithm:

- `Board.slide` walks one tile along a direction. The walk stops at the edge or at a tile of another value. It can also merge the tile into a tile of equal value and then stop.
- `Board._move_tile` keeps the grid cell and the tile's own row and column in step.
- The four directional moves `right`, `left`, `up` and `down` call `slide` on every cell of the 4 x 4 block, in an order that depends on the direction.

Around the core sit the bookkeeping operations `has_empty`, `_empty_positions`, `place_tile`, `score`, `to_list`, `from_list`, `in_bounds`, `__getitem__` and `__setitem__`.

The project has these modules:

- `Vectors` (`vec.dfy`) is `Vec` as a datatype. Its equality is value equality, and a step by a non-zero direction always leaves the start.
- `Grid` (`grid.dfy`) is the board as a value: a matrix of cells, each `Empty` or `Full(value)`. Each operation of the source is a function on such matrices.
  - `Travel` is the loop of `slide`. It returns the new board, the cell where the tile stopped, and whether it merged.
  - `Swept` is a directional move part-way through, one slide at a time, in the order of the source's nested loops. `Sweep` is the whole move.
- `GridLemmas` (`grid_lemmas.dfy`) proves what a slide and a move promise:
  - the tile walks along the direction over empty cells, stays on the board and stops at the first obstacle, as the source says;
  - the total value is conserved;
  - a merge turns two tiles of value v into one tile of value v + v;
  - the multiset of tile values is kept when nothing merges.
- `Bookkeeping` (`bookkeeping.dfy`) proves the bookkeeping properties:
  - `score` is the sum of `to_list`;
  - `to_list` and `from_list` undo each other;
  - `_empty_positions` lists exactly the empty cells in row-major order;
  - `has_empty` agrees with both;
  - `place_tile` fills exactly one previously empty cell.
- `Model` (`model.dfy`) is `Tile` and `Board` as classes that are updated in place. `Board` keeps its tiles in an `array2<Tile?>`.
  - A ghost field `cells` is the value the array denotes.
  - `Valid()` says that every tile on the board is one of its tiles and records the coordinates of its own cell, and that `cells` holds its value there.
  - Every method keeps `Valid()` and states its new `cells` through the `Grid` functions of the old ones. A slide changes only the tile object that moves; every other tile is left as it was.
  - The loops of `slide`, `score`, `has_empty`, `_empty_positions`, `to_list`, `from_list` and the four moves are `while`/`for` loops with their invariants.
- `Scenarios` (`scenarios.dfy`) works through rows placed as the top row of an otherwise empty 4 x 4 board. Each is stated first for arbitrary tile values, then as the concrete instance. A last group uses a 4 x 5 board to show why the score lemmas require a 4 x 4 board.

Randomness becomes parameters. `place_tile` receives the index that `random.choice` would pick among the empty positions, and the real number `draw` that `random.random()` would return.

The usual 2048 rule is that a tile takes part in at most one merge per move. `slide` does not follow it: after a merge it stops only the sliding tile (model.py:196). A tile slid later in the same move can merge into the tile just formed, so `[2, 2, 4, 0]` as the top row of an otherwise empty 4 x 4 board becomes, under `left`, `[8, 0, 0, 0]` (`Scenarios.LeftChain`, `Scenarios.ChainExample`).

The moves and `score` loop to the constant 4, while `in_bounds` tests against `rows` and `cols`. On a board wider or taller than 4, a move can therefore carry a tile out of the 4 x 4 corner that `score` reads. `Scenarios.WideBoardLosesScore` shows this on a 4 x 5 board.

## Model

| member | source | states |
|---|---|---|
| Vectors.EqualsIsEquality | model.py:34-36 | `__eq__` (both coordinates agree) holds exactly when the two Vecs are the same value |
| Vectors.Vec.Add | model.py:31-33 | the definition of `__add__`: the step `other` taken from this position, coordinate by coordinate; `Vectors.NonZeroStepMoves` is what is proved about it |
| Vectors.Vec.Equals | model.py:34-36 | the definition of `__eq__`: both coordinates agree; `Vectors.EqualsIsEquality` is what is proved about it |
| Vectors.NonZeroStepMoves | model.py:188 | the step `pos + dir` of slide (`__add__`, model.py:31-33) leaves the position unchanged exactly when the direction is (0, 0) |
| Grid.Set | model.py:177-178 | writing a cell: the target cell holds the new content, every other cell keeps its content, the shape is kept |
| Grid.Move | model.py:202-208 | the target cell gets the source cell's content, then the source cell is cleared, so with from == to the cell ends empty; the shape and every other cell are kept |
| Grid.EmptyGrid | model.py:78-86 | the board built by `__init__` has rows rows of cols cells, every one of them empty |
| Grid.Travel | model.py:183-199 | the loop of slide keeps the board's shape and ends on a cell of the board |
| Grid.Slide | model.py:180-200 | slide keeps the board's shape; its definition does nothing from an empty cell and is otherwise the board at the end of `Grid.Travel` (`GridLemmas.SlideConserves`, `GridLemmas.TravelFrame`, `GridLemmas.TravelLine` and `GridLemmas.TravelStop` are what is proved) |
| Grid.LaneAt | model.py:210-236 | unfolds the definition of `Grid.Lane`: the cell slid at round i of outer iteration k: right walks columns 3..0 of row k, left and up walk columns 0..3 of row k, down walks rows 3..0 of column k |
| Grid.Swept | model.py:210-236 | a move part-way through keeps the board's shape; its definition is the first n outer and i inner rounds of the move's loops, one slide per round at the cell `Grid.Lane` gives (`GridLemmas.SweptConserves` is what is proved) |
| Grid.Sweep | model.py:210-236 | a whole directional move keeps the board's shape; its definition is all 16 slides in the move's loop order (`GridLemmas.SweepConserves` is what is proved) |
| Grid.Score | model.py:115-127 | the definition of `score`: the value total of the 4 x 4 corner of the board; `GridLemmas.ScoreIsTotal` and `Bookkeeping.ScoreMatchesToList` are what is proved about it |
| Grid.ToList | model.py:142-155 | the exported matrix has the board's shape and holds each tile's value, and 0 for each empty cell |
| Grid.FromList | model.py:157-168 | loading keeps the board's shape; its definition decodes every covered cell (0 as empty) and keeps every other cell (`Bookkeeping.LoadThenExport` is what is proved) |
| Grid.HasEmpty | model.py:89-95 | the definition of `has_empty`: some cell of the board is empty; `Bookkeeping.HasEmptyIffEmpties` is what is proved about it |
| Grid.EmptyPositions | model.py:131-140 | the definition of `_empty_positions`: the empty cells row by row, left to right; `Bookkeeping.EmptyPositionsExact` is what is proved about it |
| Grid.PlaceTile | model.py:99-113 | the chosen listed position was an empty cell and now holds the value; the shape and every other cell are kept |
| Grid.SpawnValue | model.py:105-110 | place_tile uses the value it is given; without one, it uses 2 when the random draw exceeds 0.1 and 4 otherwise |
| Grid.EmptyPositionsInBounds | model.py:131-140 | every position _empty_positions lists is on the board and empty |
| GridLemmas.MoveKeepsTotal | model.py:202-208 | moving a tile into an empty cell keeps every total over the cells |
| GridLemmas.MergeTotal | model.py:193-195 | the merge step (survivor takes the sum, then moves onto the absorbed tile's cell) removes two weights of v and adds one weight of v + v, under any weighting of cells |
| GridLemmas.TravelReach | model.py:185-199 | a slide never leaves the board, never ends behind its start, and a merge always ends on another cell |
| GridLemmas.TravelFrame | model.py:185-199 | a slide changes only its start cell, which it empties when the tile moved, and its end cell |
| GridLemmas.TravelLine | model.py:187-200 | a slide by a non-zero direction ends k >= 0 steps of `pos + dir` from its start; every cell it passed over was an empty cell of the board; when it moved without merging it ended on a cell that was empty; a merge is at least one step away. With TravelStop this makes the end cell the first obstacle on the line |
| GridLemmas.TravelStop | model.py:187-199 | a merge ends on a cell that held another tile of the same value v and now holds v + v; otherwise the tile ends holding v, with the edge or a tile of a different value just beyond |
| GridLemmas.TravelTotal | model.py:185-199 | under any weighting of cells, a slide keeps the total when it does not merge, and trades two cells of value v for one of value v + v when it does |
| GridLemmas.TravelTiles | model.py:185-199 | a slide conserves the sum of the tile values; without a merge it keeps the count of every value; a merge removes two tiles of value v and adds one of value v + v, so the tile count drops by exactly one |
| GridLemmas.SlideInPlace | model.py:180-208 | slide with direction (0, 0) merges the tile with itself and _move_tile then clears its cell: the tile and its value disappear |
| GridLemmas.SlideConserves | model.py:180-200 | a slide by a non-zero direction conserves the total value and never adds a tile; when it keeps the tile count, it keeps the multiset of tile values; from an empty cell it changes nothing |
| GridLemmas.SweptConserves | model.py:210-236 | after any number of slides of a directional move, the total value is conserved, no tile was added, and with an unchanged tile count the multiset of values is unchanged |
| GridLemmas.ScoreIsTotal | model.py:115-127 | on a 4 x 4 board the score is the sum of all tile values |
| GridLemmas.SweepConserves | model.py:210-236 | right, left, up and down keep the score of a 4 x 4 board and never add a tile; a move that merges nothing keeps the multiset of tile values |
| Bookkeeping.RowTotalIsRowSum | model.py:148-153 | the value total of a row equals the sum of the nonzero entries of its to_list row |
| Bookkeeping.TotalIsListSum | model.py:142-155 | the value total of the board equals the sum of the nonzero entries of to_list |
| Bookkeeping.ScoreMatchesToList | model.py:115-127 | on a 4 x 4 board score() equals the sum of the nonzero entries of to_list() |
| Bookkeeping.SlideKeepsScore | model.py:180-200 | one slide by a non-zero direction keeps the score of a 4 x 4 board |
| Bookkeeping.LoadThenExport | model.py:157-168 | loading a value matrix of the board's shape with from_list and exporting with to_list gives the matrix back |
| Bookkeeping.ExportLoadExport | model.py:142-168 | from_list(to_list()) reproduces the same to_list() |
| Bookkeeping.ExportLoad | model.py:157-168 | from_list(to_list()) rebuilds the board itself exactly when no tile has value 0 |
| Bookkeeping.RowEmptiesExact | model.py:137-139 | the empties listed for a row are exactly its empty cells, left to right |
| Bookkeeping.EmptyPositionsExact | model.py:131-140 | a position is listed by _empty_positions exactly when it is an empty cell of the board, and the list is strictly increasing in row-major order |
| Bookkeeping.HasEmptyIffEmpties | model.py:89-95 | has_empty() holds exactly when _empty_positions() is not empty |
| Bookkeeping.HasEmptyIffZero | model.py:89-95 | has_empty() implies that to_list() contains a 0; when all tile values are positive, the converse holds too |
| Bookkeeping.PlaceTileEffect | model.py:99-113 | place_tile fills the chosen position, which was empty, with the value; every other cell is unchanged; the board has one more tile and its total grows by the value |
| Bookkeeping.PlaceTileEmpties | model.py:99-113 | after place_tile the empty positions are the old ones without the chosen position |
| Model.Tile.constructor | model.py:44-48 | a new tile records the given position and value |
| Model.Tile.Equals | model.py:57-58 | the definition of `Tile.__eq__`: a tile equals a number when its value is that number |
| Model.Tile.MoveTo | model.py:60-63 | move_to changes the recorded position and keeps the value |
| Model.Tile.Merge | model.py:65-70 | merge adds the other tile's value into this tile and keeps its position |
| Model.Board.constructor | model.py:78-86 | a new rows x cols board, 4 x 4 by default, has every cell empty and satisfies the board invariant |
| Model.Board.InBounds | model.py:170-172 | the definition of `in_bounds`: 0 <= x < rows and 0 <= y < cols; `Model.Board.InBoundsIsOnBoard` is what is proved about it |
| Model.Board.InBoundsIsOnBoard | model.py:170-172 | in_bounds(p) holds exactly when p is a cell of the board, that is 0 <= p.x < rows and 0 <= p.y < cols |
| Model.Board.Get | model.py:174-175 | the cell's tile is null exactly when the cell is empty; otherwise the tile records this cell and carries its value |
| Model.Board.Set | model.py:177-178 | the cell now holds the given tile (or none); every other array slot keeps the same tile object |
| Model.Board.HasEmpty | model.py:89-95 | the scan returns true exactly when some cell of the board has no tile |
| Model.Board.EmptyPositions | model.py:131-140 | the nested loops return the empty positions of the whole board in row-major order |
| Model.Board.PlaceTile | model.py:99-113 | the chosen empty position gets a freshly made tile with the given value or else the one drawn; every other slot keeps its tile object; the board invariant is kept |
| Model.Board.Score | model.py:115-127 | the nested loops over the 4 x 4 block add up the values of its tiles |
| Model.Board.ToList | model.py:142-155 | the board is returned as rows of tile values, with 0 for each empty cell |
| Model.Board.FromList | model.py:157-168 | every cell covered by values gets a freshly made tile of that value, or is cleared where the value is 0; the slots not covered keep their tile objects |
| Model.Board.MoveTile | model.py:202-208 | the tile moves to the target cell and reports that cell's position; its old cell is empty; every other slot keeps its tile object |
| Model.Board.MergeInto | model.py:193-195 | the moving tile takes the sum of both values and then moves onto the absorbed tile's cell, which it now occupies; every other slot keeps its tile object, and no tile but the moving one is changed |
| Model.Board.SlideStep | model.py:187-200 | one round of the slide loop: it either steps into the empty cell `p + dir`, the board becoming `Grid.Move` of the old one, and goes on, or merges and stops, or stops at the edge or at a different tile, always as the rest of Grid.Travel says; no tile but the moving one is changed |
| Model.Board.Slide | model.py:180-200 | the new board is Grid.Slide of the old one; the tile that started the trip is the one that rests at its end cell; every slot other than the start and end cells keeps its tile object, and no tile but the moving one is changed |
| Model.Board.Right | model.py:210-216 | the new board is the board after the 16 slides of right, in its loop order |
| Model.Board.Left | model.py:218-222 | the new board is the board after the 16 slides of left, in its loop order |
| Model.Board.Up | model.py:224-228 | the new board is the board after the 16 slides of up, in its loop order |
| Model.Board.Down | model.py:230-236 | the new board is the board after the 16 slides of down, in its loop order |
| Scenarios.TravelIntoEmpty | model.py:191-192 | unfolds one branch of `Grid.Travel`: an empty next cell: the tile moves there and the loop continues from it (`pos = new_pos`, model.py:200) |
| Scenarios.TravelAtEdge | model.py:189-190 | unfolds one branch of `Grid.Travel`: a next cell off the board: the tile stays without merging |
| Scenarios.TravelBlocked | model.py:197-199 | unfolds one branch of `Grid.Travel`: a next cell holding a tile of another value: the tile stays without merging |
| Scenarios.TravelMerge | model.py:193-196 | unfolds one branch of `Grid.Travel`: a next cell holding an equal tile: the moving tile takes the sum, moves there and the loop stops |
| Scenarios.SlideFrom | model.py:180-186 | unfolds the definition of `Grid.Slide`: slide from an empty cell changes nothing; from a tile it is the trip of that tile |
| Scenarios.SweptQuiet | model.py:210-236 | once every cell still to be visited by a move is empty, the rest of the move changes nothing |
| Scenarios.TopRowSweep | model.py:210-222 | a horizontal move on a board whose tiles all lie in the top row is the four slides of that row in loop order |
| Scenarios.TopRowStays | model.py:210-222 | a top row that none of its four slides changes is left unchanged by the move |
| Scenarios.LeftPair | model.py:218-222 | [0, v, v, 0] as the top row of an otherwise empty 4 x 4 board, under left becomes [v + v, 0, 0, 0] |
| Scenarios.LeftExample | model.py:218-222 | [0, 2, 2, 0] as the top row of an otherwise empty 4 x 4 board, under left becomes [4, 0, 0, 0] |
| Scenarios.RightPair | model.py:210-216 | for a != b, [a, a, b, 0] as the top row of an otherwise empty 4 x 4 board, under right becomes [0, 0, a + a, b] |
| Scenarios.RightExample | model.py:210-216 | [4, 4, 2, 0] as the top row of an otherwise empty 4 x 4 board, under right becomes [0, 0, 8, 2] |
| Scenarios.LeftStuck | model.py:218-222 | for a != b, [a, b, a, b] as the top row of an otherwise empty 4 x 4 board, under left stays as it is |
| Scenarios.StuckExample | model.py:218-222 | [2, 4, 2, 4] as the top row of an otherwise empty 4 x 4 board, under left stays [2, 4, 2, 4] |
| Scenarios.LeftChain | model.py:193-196 | a later slide merges into a tile formed earlier in the same move: [v, v, v + v, 0] as the top row of an otherwise empty 4 x 4 board, under left becomes [4v, 0, 0, 0] |
| Scenarios.ChainExample | model.py:218-222 | [2, 2, 4, 0] as the top row of an otherwise empty 4 x 4 board, under left becomes [8, 0, 0, 0] |
| Scenarios.WideSlide | model.py:187-192 | on a 4 x 5 board, sliding right from column 3 carries the tile into column 4, because in_bounds admits it |
| Scenarios.WideRight | model.py:210-216 | on a 4 x 5 board whose only tile is at (0, 3), right leaves that tile at (0, 4) |
| Scenarios.WideScores | model.py:115-127 | score counts a tile in column 3 and not one in column 4, while the sum of to_list counts it |
| Scenarios.WideBoardLosesScore | model.py:115-127 | on a 4 x 5 board, right and a single slide can lose score, and score differs from the sum of to_list |

## Left out

- Event notification (`notify_all`, `GameEvent`, `EventKind` and the `GameElement` base class) is not modelled. It lives in `game_element`, which is not part of this model, and only feeds the view. `move_to`, `merge` and `place_tile` are modelled as their field updates.
- The random choices of `place_tile` are parameters. `random.choice` becomes the index into the empty positions. `random.random()` becomes the real number `draw`. The 0.9 / 0.1 probability of the two values is not modelled.
- `Tile.__repr__` and `Tile.__str__` are left out: they only build debugging strings.
- `Tile.__eq__` is modelled as `Tile.Equals`, value equality. Python's reflected comparison is not modelled, and nothing is proved about `Tile.Equals` beyond its definition.
- Model.Board.Get: requires an in-bounds position. Python would wrap a negative index around, and raise an error past the end. `slide` checks `in_bounds` on every step before reading the next cell, and the moves only pass positions of the 4 x 4 corner. So within the game neither happens on a board of at least 4 x 4.
- Model.Board.Slide: requires `pos` to be on the board. The first read `self[pos]` has no `in_bounds` check, so Python would wrap a negative position around and raise an error past the end. Only the four moves call `slide`, and their loop bounds keep `pos` in the 4 x 4 corner.
- Model.Board.FromList: requires the value matrix to fit on the board. With more rows or columns than the board, Python raises an indexing error after loading part of the matrix. That failure and the partial load are not modelled.
- Model.Board.Set: requires a non-null tile to record `pos` as its position. `__setitem__` stores any tile, but any other tile would break the invariant that every tile records its own cell. The game itself never calls `__setitem__`.
- Model.Board.Score: requires rows and cols of at least 4. The loops run to the constant 4, so a smaller board raises an indexing error, which is not modelled.
- Model.Board.Right: requires rows and cols of at least 4. Its loops run to the constant 4, so a smaller board raises an indexing error, which is not modelled.
- Model.Board.Left: requires rows and cols of at least 4. Its loops run to the constant 4, so a smaller board raises an indexing error, which is not modelled.
- Model.Board.Up: requires rows and cols of at least 4. Its loops run to the constant 4, so a smaller board raises an indexing error, which is not modelled.
- Model.Board.Down: requires rows and cols of at least 4. Its loops run to the constant 4, so a smaller board raises an indexing error, which is not modelled.
- GridLemmas.SweepConserves: states score conservation for a 4 x 4 board only, because on a larger board it is false. `in_bounds` admits the cells beyond the corner, so a move can carry a tile out of the 4 x 4 corner that `score` sums (`Scenarios.WideBoardLosesScore`).
- Bookkeeping.ScoreMatchesToList: 4 x 4 boards only, because on a larger board `score` leaves out every tile beyond the corner while `to_list` includes it (`Scenarios.WideBoardLosesScore`).
- Bookkeeping.SlideKeepsScore: 4 x 4 boards only, because on a larger board one slide can carry a tile out of the corner (`Scenarios.WideBoardLosesScore`).
- GridLemmas.SlideConserves: requires a non-zero direction. With (0, 0) the tile merges with itself and vanishes; `GridLemmas.SlideInPlace` states this case.
- GridLemmas.TravelTiles: requires a non-zero direction, for the same reason.
- GridLemmas.TravelTotal: requires a non-zero direction, for the same reason.
- Bookkeeping.ExportLoad: a tile of value 0 (which `place_tile(0)` would create) exports as 0 and loads back as an empty cell. Only the exported lists round-trip in that case.
- Integer width is not an issue: Python integers are unbounded, and so are the model's.
