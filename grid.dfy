/** The board of model.py seen as a value: a matrix of cells, each empty or holding a
    tile's value. Every operation of class Board is specified in this module as a
    function on such matrices; the lemmas in grid_lemmas.dfy state what they promise. */
module Grid {
  import opened Vectors

  /** GRID_SIZE of model.py: the loop bound of score and of the four directional moves. */
  const GRID_SIZE: nat := 4

  /** A cell of the board: None in the source, or a tile of the given value. */
  datatype Cell = Empty | Full(value: int)

  type Matrix = seq<seq<Cell>>

  /** What a cell contributes to the score and to to_list: the tile's value, or 0. */
  function Value(c: Cell): int {
    if c.Full? then c.value else 0
  }

  /** The row and column counts of a board with `rows` rows of `cols` cells each. */
  predicate Shaped(g: Matrix, rows: nat, cols: nat) {
    |g| == rows && forall r :: 0 <= r < rows ==> |g[r]| == cols
  }

  predicate SameShape(g: Matrix, h: Matrix) {
    |g| == |h| && forall r :: 0 <= r < |g| ==> |g[r]| == |h[r]|
  }

  /** A board on which every position that the fixed GRID_SIZE loops visit exists. */
  predicate Fits(g: Matrix) {
    |g| >= GRID_SIZE && forall r :: 0 <= r < GRID_SIZE ==> |g[r]| >= GRID_SIZE
  }

  predicate InBounds(g: Matrix, p: Vec) {
    0 <= p.x < |g| && 0 <= p.y < |g[p.x]|
  }

  function Get(g: Matrix, p: Vec): Cell
    requires InBounds(g, p)
  {
    g[p.x][p.y]
  }

  /** Board.__setitem__ on the value: cell `p` now holds `c`, every other cell is kept. */
  function Set(g: Matrix, p: Vec, c: Cell): (h: Matrix)
    requires InBounds(g, p)
    ensures SameShape(g, h) && InBounds(h, p)
    ensures Get(h, p) == c
    ensures forall q :: InBounds(g, q) && q != p ==> Get(h, q) == Get(g, q)
  {
    g[p.x := g[p.x][p.y := c]]
  }

  /** Board._move_tile on the value: the cell `to` gets what `from` held, then `from` is
      cleared. When `from == to` the clearing wins and the cell ends up empty. */
  function Move(g: Matrix, from: Vec, to: Vec): (h: Matrix)
    requires InBounds(g, from) && InBounds(g, to)
    ensures SameShape(g, h) && Get(h, from) == Empty
    ensures from != to ==> Get(h, to) == Get(g, from)
    ensures forall q :: InBounds(g, q) && q != from && q != to ==> Get(h, q) == Get(g, q)
  {
    Set(Set(g, to, Get(g, from)), from, Empty)
  }

  /** Two boards of the same shape with the same cells are the same board. */
  lemma Extensional(g: Matrix, h: Matrix)
    requires SameShape(g, h)
    requires forall r, c :: 0 <= r < |g| && 0 <= c < |g[r]| ==> g[r][c] == h[r][c]
    ensures g == h
  {
    forall r | 0 <= r < |g|
      ensures g[r] == h[r]
    {
      assert forall c :: 0 <= c < |g[r]| ==> g[r][c] == h[r][c];
    }
  }

  /** The empty board built by Board.__init__. */
  function EmptyGrid(rows: nat, cols: nat): (g: Matrix)
    ensures Shaped(g, rows, cols)
    ensures forall p :: InBounds(g, p) ==> Get(g, p) == Empty
  {
    seq(rows, r => seq(cols, c => Empty))
  }

  // ---------------------------------------------------------------------------------
  // Board.slide

  /** The end of one slide: the board afterwards, the cell where the moving tile came to
      rest, and whether it stopped by merging into the tile that lay there. */
  datatype Trip = Trip(grid: Matrix, dest: Vec, merged: bool)

  /** How many more steps along `dir` stay on the board from `p` (a bound on the loop of
      Board.slide; 0 for the zero direction, where the loop stops after one round). */
  function Reach(g: Matrix, p: Vec, dir: Vec): nat
    requires InBounds(g, p)
  {
    if dir.x > 0 then |g| - p.x
    else if dir.x < 0 then p.x + 1
    else if dir.y > 0 then |g[p.x]| - p.y
    else if dir.y < 0 then p.y + 1
    else 0
  }

  /** A step into an empty cell brings the moving tile closer to the edge. */
  lemma ReachDecreases(g: Matrix, p: Vec, dir: Vec)
    requires InBounds(g, p) && Get(g, p).Full?
    requires InBounds(g, p.Add(dir)) && Get(g, p.Add(dir)).Empty?
    ensures InBounds(Move(g, p, p.Add(dir)), p.Add(dir))
    ensures Reach(Move(g, p, p.Add(dir)), p.Add(dir), dir) < Reach(g, p, dir)
  {
    var next := p.Add(dir);
    var h := Move(g, p, next);
    assert next != p;
    assert |h[next.x]| == |g[next.x]|;
  }

  /** The `while True` loop of Board.slide, started with a tile at `p`: step into empty
      cells; stop at the edge or against a tile of another value; on a tile of the same
      value the moving tile takes the sum, moves onto that cell, and stops. */
  function Travel(g: Matrix, p: Vec, dir: Vec): (t: Trip)
    requires InBounds(g, p) && Get(g, p).Full?
    ensures SameShape(g, t.grid) && InBounds(g, t.dest)
    decreases Reach(g, p, dir)
  {
    var next := p.Add(dir);
    if !InBounds(g, next) then
      Trip(g, p, false)
    else if Get(g, next).Empty? then
      ReachDecreases(g, p, dir);
      Travel(Move(g, p, next), next, dir)
    else if Get(g, next).value == Get(g, p).value then
      var merged := Set(g, p, Full(Get(g, p).value + Get(g, next).value));
      Trip(Move(merged, p, next), next, true)
    else
      Trip(g, p, false)
  }

  /** Board.slide: nothing happens when the cell is empty. */
  function Slide(g: Matrix, pos: Vec, dir: Vec): (h: Matrix)
    requires InBounds(g, pos)
    ensures SameShape(g, h)
  {
    if Get(g, pos).Empty? then g else Travel(g, pos, dir).grid
  }

  // ---------------------------------------------------------------------------------
  // Board.right, Board.left, Board.up, Board.down

  datatype Direction = Right | Left | Up | Down

  /** The step each directional move passes to slide. */
  function Delta(d: Direction): Vec {
    match d
    case Right => Vec(0, 1)
    case Left => Vec(0, -1)
    case Up => Vec(-1, 0)
    case Down => Vec(1, 0)
  }

  /** The positions that iteration `k` of a move's outer loop slides, in the order of
      its inner loop: right walks columns 3..0 of row k, left and up walk columns 0..3
      of row k, down walks rows 3..0 of column k. */
  function Lane(d: Direction, k: int): (lane: seq<Vec>)
    ensures |lane| == GRID_SIZE
  {
    match d
    case Right => seq(GRID_SIZE, i => Vec(k, GRID_SIZE - 1 - i))
    case Left => seq(GRID_SIZE, i => Vec(k, i))
    case Up => seq(GRID_SIZE, i => Vec(k, i))
    case Down => seq(GRID_SIZE, i => Vec(GRID_SIZE - 1 - i, k))
  }

  /** The lanes of a move lie inside the GRID_SIZE x GRID_SIZE block. */
  lemma LaneInBlock(d: Direction, k: int, i: int)
    requires 0 <= k < GRID_SIZE && 0 <= i < GRID_SIZE
    ensures 0 <= Lane(d, k)[i].x < GRID_SIZE && 0 <= Lane(d, k)[i].y < GRID_SIZE
  {
  }

  /** The position that round `i` of outer iteration `k` of each move slides. */
  lemma LaneAt(d: Direction, k: int, i: int)
    requires 0 <= i < GRID_SIZE
    ensures d == Right ==> Lane(d, k)[i] == Vec(k, GRID_SIZE - 1 - i)
    ensures d == Left || d == Up ==> Lane(d, k)[i] == Vec(k, i)
    ensures d == Down ==> Lane(d, k)[i] == Vec(GRID_SIZE - 1 - i, k)
  {
  }

  /** A move part-way through: the first `n` iterations of its outer loop and the first
      `i` iterations of the inner loop of iteration `n`, one slide at a time. */
  function Swept(g: Matrix, d: Direction, n: nat, i: nat): (h: Matrix)
    requires Fits(g) && n <= GRID_SIZE && i <= GRID_SIZE && (n < GRID_SIZE || i == 0)
    ensures SameShape(g, h)
    decreases n, i
  {
    if i > 0 then
      var before := Swept(g, d, n, i - 1);
      var p := Lane(d, n)[i - 1];
      LaneInBlock(d, n, i - 1);
      assert |before[p.x]| == |g[p.x]|;
      Slide(before, p, Delta(d))
    else if n > 0 then Swept(g, d, n - 1, GRID_SIZE)
    else g
  }

  /** One more round of the inner loop slides the next position of the lane. */
  lemma SweptNext(g: Matrix, d: Direction, n: nat, i: nat)
    requires Fits(g) && n < GRID_SIZE && i < GRID_SIZE
    ensures InBounds(Swept(g, d, n, i), Lane(d, n)[i])
    ensures Swept(g, d, n, i + 1) == Slide(Swept(g, d, n, i), Lane(d, n)[i], Delta(d))
  {
    LaneInBlock(d, n, i);
  }

  /** A finished inner loop is the start of the next round of the outer loop. */
  lemma SweptRow(g: Matrix, d: Direction, n: nat)
    requires Fits(g) && n < GRID_SIZE
    ensures Swept(g, d, n, GRID_SIZE) == Swept(g, d, n + 1, 0)
  {
  }

  /** A move starts from the board it is given and ends with the full sweep. */
  lemma SweptEnds(g: Matrix, d: Direction)
    requires Fits(g)
    ensures Swept(g, d, 0, 0) == g
    ensures Swept(g, d, GRID_SIZE, 0) == Sweep(g, d)
  {
  }

  /** One directional move: slide every cell, in the order of the source's loops. */
  function Sweep(g: Matrix, d: Direction): (h: Matrix)
    requires Fits(g)
    ensures SameShape(g, h)
  {
    Swept(g, d, GRID_SIZE, 0)
  }

  // ---------------------------------------------------------------------------------
  // Board.score, Board.to_list, Board.from_list

  /** The sum of `f` over the cells of a row. */
  function RowTotal(row: seq<Cell>, f: Cell -> int): int
    decreases |row|
  {
    if row == [] then 0 else RowTotal(row[..|row| - 1], f) + f(row[|row| - 1])
  }

  /** The sum of `f` over all cells of the board, row after row. */
  function Total(g: Matrix, f: Cell -> int): int
    decreases |g|
  {
    if g == [] then 0 else Total(g[..|g| - 1], f) + RowTotal(g[|g| - 1], f)
  }

  /** The GRID_SIZE x GRID_SIZE corner that Board.score visits. */
  function Block(g: Matrix): (b: Matrix)
    requires Fits(g)
    ensures Shaped(b, GRID_SIZE, GRID_SIZE)
  {
    seq(GRID_SIZE, r requires 0 <= r < GRID_SIZE => g[r][..GRID_SIZE])
  }

  /** Board.score: the sum of the tile values over rows and columns 0..GRID_SIZE-1. */
  function Score(g: Matrix): int
    requires Fits(g)
  {
    Total(Block(g), Value)
  }

  /** One row of Board.to_list: each tile by its value, each empty cell by 0. */
  function RowValues(row: seq<Cell>): (vs: seq<int>)
    ensures |vs| == |row|
  {
    seq(|row|, c requires 0 <= c < |row| => Value(row[c]))
  }

  /** Board.to_list. */
  function ToList(g: Matrix): (m: seq<seq<int>>)
    ensures |m| == |g| && forall r :: 0 <= r < |g| ==> |m[r]| == |g[r]|
    ensures forall r, c :: 0 <= r < |g| && 0 <= c < |g[r]| ==> m[r][c] == Value(g[r][c])
  {
    seq(|g|, r requires 0 <= r < |g| => RowValues(g[r]))
  }

  /** The cell from_list puts where the value matrix says `v`. */
  function Decode(v: int): Cell {
    if v == 0 then Empty else Full(v)
  }

  /** A value matrix that from_list can load into `g` without indexing off the board. */
  predicate Loadable(g: Matrix, values: seq<seq<int>>) {
    |values| <= |g| && forall r :: 0 <= r < |values| ==> |values[r]| <= |g[r]|
  }

  /** Board.from_list: every cell that `values` covers is overwritten with the decoded
      value; cells beyond the extent of `values` keep what they held. */
  function FromList(g: Matrix, values: seq<seq<int>>): (h: Matrix)
    requires Loadable(g, values)
    ensures SameShape(g, h)
  {
    seq(|g|, r requires 0 <= r < |g| =>
      seq(|g[r]|, c requires 0 <= c < |g[r]| =>
        if r < |values| && c < |values[r]| then Decode(values[r][c]) else g[r][c]))
  }

  // ---------------------------------------------------------------------------------
  // Board.has_empty, Board._empty_positions, Board.place_tile

  predicate HasEmpty(g: Matrix) {
    exists r, c :: 0 <= r < |g| && 0 <= c < |g[r]| && g[r][c].Empty?
  }

  /** The positions Vec(r, c) of the empty cells of `row`, which is row `r` of a board. */
  function RowEmpties(row: seq<Cell>, r: int): seq<Vec>
    decreases |row|
  {
    if row == [] then []
    else RowEmpties(row[..|row| - 1], r) + (if row[|row| - 1].Empty? then [Vec(r, |row| - 1)] else [])
  }

  /** Board._empty_positions: the empty cells, row by row, left to right. */
  function EmptyPositions(g: Matrix): seq<Vec>
    decreases |g|
  {
    if g == [] then [] else EmptyPositions(g[..|g| - 1]) + RowEmpties(g[|g| - 1], |g| - 1)
  }

  /** The optional `value` argument of place_tile. */
  datatype Option = None | Some(value: int)

  /** The value place_tile uses: the one it was given, or else 4 when the random draw
      in [0, 1) is at most 0.1 and 2 otherwise. */
  function SpawnValue(value: Option, draw: real): (v: int)
    ensures value.Some? ==> v == value.value
    ensures value.None? ==> (v == 4 <==> draw <= 0.1) && (v == 2 <==> draw > 0.1)
  {
    if value.Some? then value.value else if draw > 0.1 then 2 else 4
  }

  /** Board.place_tile, with the random choice passed in as `index` into the list of
      empty positions. */
  function PlaceTile(g: Matrix, index: nat, v: int): (h: Matrix)
    requires index < |EmptyPositions(g)|
    ensures SameShape(g, h)
    ensures var p := EmptyPositions(g)[index];
      InBounds(g, p) && Get(g, p).Empty? && Get(h, p) == Full(v)
    ensures forall q :: InBounds(g, q) && q != EmptyPositions(g)[index] ==> Get(h, q) == Get(g, q)
  {
    EmptyPositionsInBounds(g);
    Set(g, EmptyPositions(g)[index], Full(v))
  }

  /** Every listed empty position is on the board and empty. */
  lemma {:induction false} EmptyPositionsInBounds(g: Matrix)
    ensures forall i :: 0 <= i < |EmptyPositions(g)| ==>
      InBounds(g, EmptyPositions(g)[i]) && Get(g, EmptyPositions(g)[i]).Empty?
  {
    if g != [] {
      var init := g[..|g| - 1];
      EmptyPositionsInBounds(init);
      RowEmptiesInRow(g[|g| - 1], |g| - 1);
      var es := EmptyPositions(g);
      assert es == EmptyPositions(init) + RowEmpties(g[|g| - 1], |g| - 1);
      forall i | 0 <= i < |es|
        ensures InBounds(g, es[i]) && Get(g, es[i]).Empty?
      {
        if i < |EmptyPositions(init)| {
          assert es[i] == EmptyPositions(init)[i];
          assert g[es[i].x] == init[es[i].x];
        } else {
          assert es[i] == RowEmpties(g[|g| - 1], |g| - 1)[i - |EmptyPositions(init)|];
        }
      }
    }
  }

  /** The empties of one row lie in that row, at its empty cells. */
  lemma {:induction false} RowEmptiesInRow(row: seq<Cell>, r: int)
    ensures forall i :: 0 <= i < |RowEmpties(row, r)| ==>
      RowEmpties(row, r)[i].x == r && 0 <= RowEmpties(row, r)[i].y < |row| &&
      row[RowEmpties(row, r)[i].y].Empty?
    decreases |row|
  {
    if row != [] {
      var init := row[..|row| - 1];
      RowEmptiesInRow(init, r);
      var es := RowEmpties(row, r);
      forall i | 0 <= i < |es|
        ensures es[i].x == r && 0 <= es[i].y < |row| && row[es[i].y].Empty?
      {
        if i < |RowEmpties(init, r)| {
          assert es[i] == RowEmpties(init, r)[i];
        }
      }
    }
  }
}
