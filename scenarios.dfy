/** Worked moves on a 4 x 4 board whose tiles all lie in its top row. Each general
    lemma is stated for arbitrary tile values; the concrete rows follow as instances.
    A last group of lemmas uses a 4 x 5 board to show what the 4 x 4 requirement of
    the score lemmas is for. */
module Scenarios {
  import opened Vectors
  import opened Grid
  import GridLemmas
  import Bookkeeping

  // ---------------------------------------------------------------------------------
  // One round of the loop of Board.slide

  /** Next cell empty: the tile moves there, giving board `h`, and the loop goes on
      from it. */
  lemma TravelIntoEmpty(g: Matrix, p: Vec, dir: Vec, next: Vec, h: Matrix)
    requires InBounds(g, p) && Get(g, p).Full? && next == p.Add(dir)
    requires InBounds(g, next) && Get(g, next).Empty? && h == Move(g, p, next)
    ensures InBounds(h, next) && Get(h, next).Full?
    ensures Travel(g, p, dir) == Travel(h, next, dir)
  {
    ReachDecreases(g, p, dir);
  }

  /** Next cell off the board: the tile stays. */
  lemma TravelAtEdge(g: Matrix, p: Vec, dir: Vec)
    requires InBounds(g, p) && Get(g, p).Full? && !InBounds(g, p.Add(dir))
    ensures Travel(g, p, dir) == Trip(g, p, false)
  {
  }

  /** Next cell holds a tile of another value: the tile stays. */
  lemma TravelBlocked(g: Matrix, p: Vec, dir: Vec, next: Vec)
    requires InBounds(g, p) && Get(g, p).Full? && next == p.Add(dir)
    requires InBounds(g, next) && Get(g, next).Full? && Get(g, next).value != Get(g, p).value
    ensures Travel(g, p, dir) == Trip(g, p, false)
  {
  }

  /** Next cell holds a tile of the same value: the moving tile takes the sum and
      moves onto that cell, giving board `h`. */
  lemma TravelMerge(g: Matrix, p: Vec, dir: Vec, next: Vec, h: Matrix)
    requires InBounds(g, p) && Get(g, p).Full? && next == p.Add(dir)
    requires InBounds(g, next) && Get(g, next).Full? && Get(g, next).value == Get(g, p).value
    requires h == Move(Set(g, p, Full(Get(g, p).value + Get(g, next).value)), p, next)
    ensures Travel(g, p, dir) == Trip(h, next, true)
  {
  }

  lemma SlideFrom(g: Matrix, p: Vec, dir: Vec)
    requires InBounds(g, p)
    ensures Get(g, p).Empty? ==> Slide(g, p, dir) == g
    ensures Get(g, p).Full? ==> Slide(g, p, dir) == Travel(g, p, dir).grid
  {
  }

  // ---------------------------------------------------------------------------------
  // The rest of a move over empty cells

  /** Every position the move still has to visit, from round `i` of outer iteration `n`
      on, is an empty cell of `h`. */
  ghost predicate QuietFrom(h: Matrix, d: Direction, n: nat, i: nat) {
    forall m, j :: 0 <= m < GRID_SIZE && 0 <= j < GRID_SIZE && (m > n || (m == n && j >= i)) ==>
      InBounds(h, Lane(d, m)[j]) && Get(h, Lane(d, m)[j]).Empty?
  }

  /** Once every position still to be visited is empty, the rest of the move changes
      nothing. */
  lemma {:induction false} SweptQuiet(g: Matrix, d: Direction, n: nat, i: nat)
    requires Fits(g) && n <= GRID_SIZE && i <= GRID_SIZE && (n < GRID_SIZE || i == 0)
    requires QuietFrom(Swept(g, d, n, i), d, n, i)
    ensures Sweep(g, d) == Swept(g, d, n, i)
    decreases GRID_SIZE - n, GRID_SIZE - i
  {
    var h := Swept(g, d, n, i);
    if n == GRID_SIZE {
      SweptEnds(g, d);
    } else if i == GRID_SIZE {
      SweptRow(g, d, n);
      SweptQuiet(g, d, n + 1, 0);
    } else {
      SweptNext(g, d, n, i);
      assert Get(h, Lane(d, n)[i]).Empty?;
      SweptQuiet(g, d, n, i + 1);
    }
  }

  /** Round `i` of outer iteration `n` slides position `p` of board `h`, giving `h2`. */
  lemma SweptStep(g: Matrix, d: Direction, n: nat, i: nat, p: Vec, h: Matrix, h2: Matrix)
    requires Fits(g) && n < GRID_SIZE && i < GRID_SIZE && p == Lane(d, n)[i]
    requires Swept(g, d, n, i) == h && InBounds(h, p) && Slide(h, p, Delta(d)) == h2
    ensures Swept(g, d, n, i + 1) == h2
  {
    SweptNext(g, d, n, i);
  }

  // ---------------------------------------------------------------------------------
  // Boards with one occupied row

  const E: Cell := Empty
  const BLANK: seq<Cell> := [E, E, E, E]

  /** The 4 x 4 board whose top row is `row` and whose other rows are empty. */
  function Top(row: seq<Cell>): (g: Matrix)
    requires |row| == GRID_SIZE
    ensures Shaped(g, GRID_SIZE, GRID_SIZE) && g[0] == row
  {
    [row, BLANK, BLANK, BLANK]
  }

  lemma TopSet(row: seq<Cell>, j: nat, c: Cell)
    requires |row| == GRID_SIZE && j < GRID_SIZE
    ensures InBounds(Top(row), Vec(0, j)) && Set(Top(row), Vec(0, j), c) == Top(row[j := c])
  {
  }

  /** The tile at column `a` of the top row moves to column `b`, giving row `after`. */
  lemma TopMove(row: seq<Cell>, a: nat, b: nat, after: seq<Cell>)
    requires |row| == GRID_SIZE && a < GRID_SIZE && b < GRID_SIZE
    requires after == row[b := row[a]][a := E]
    ensures InBounds(Top(row), Vec(0, a)) && InBounds(Top(row), Vec(0, b))
    ensures Move(Top(row), Vec(0, a), Vec(0, b)) == Top(after)
  {
    TopSet(row, b, row[a]);
    TopSet(row[b := row[a]], a, E);
  }

  /** The tile at column `a` takes value `v` and moves to column `b`, giving `after`. */
  lemma TopMergeMove(row: seq<Cell>, a: nat, b: nat, v: int, after: seq<Cell>)
    requires |row| == GRID_SIZE && a < GRID_SIZE && b < GRID_SIZE
    requires a != b && after == row[b := Full(v)][a := E]
    ensures InBounds(Top(row), Vec(0, a)) && InBounds(Top(row), Vec(0, b))
    ensures Move(Set(Top(row), Vec(0, a), Full(v)), Vec(0, a), Vec(0, b)) == Top(after)
  {
    TopSet(row, a, Full(v));
    TopMove(row[a := Full(v)], a, b, after);
  }

  /** After the first round of a horizontal move only empty rows are left. */
  lemma TopQuiet(row: seq<Cell>, d: Direction)
    requires |row| == GRID_SIZE && (d == Left || d == Right)
    ensures QuietFrom(Top(row), d, 1, 0)
  {
  }

  /** A horizontal move on a board whose only tiles lie in its top row: if the four
      slides of that row take it from `r0` through `r1`, `r2` and `r3` to `r4`, the
      move ends with `r4` on top. */
  lemma TopRowSweep(d: Direction, r0: seq<Cell>, r1: seq<Cell>, r2: seq<Cell>, r3: seq<Cell>, r4: seq<Cell>)
    requires d == Left || d == Right
    requires |r0| == GRID_SIZE && |r1| == GRID_SIZE && |r2| == GRID_SIZE && |r3| == GRID_SIZE && |r4| == GRID_SIZE
    requires Slide(Top(r0), Lane(d, 0)[0], Delta(d)) == Top(r1)
    requires Slide(Top(r1), Lane(d, 0)[1], Delta(d)) == Top(r2)
    requires Slide(Top(r2), Lane(d, 0)[2], Delta(d)) == Top(r3)
    requires Slide(Top(r3), Lane(d, 0)[3], Delta(d)) == Top(r4)
    ensures Sweep(Top(r0), d) == Top(r4)
  {
    var g := Top(r0);
    LaneInBlock(d, 0, 0);
    LaneInBlock(d, 0, 1);
    LaneInBlock(d, 0, 2);
    LaneInBlock(d, 0, 3);
    SweptEnds(g, d);
    SweptStep(g, d, 0, 0, Lane(d, 0)[0], g, Top(r1));
    SweptStep(g, d, 0, 1, Lane(d, 0)[1], Top(r1), Top(r2));
    SweptStep(g, d, 0, 2, Lane(d, 0)[2], Top(r2), Top(r3));
    SweptStep(g, d, 0, 3, Lane(d, 0)[3], Top(r3), Top(r4));
    SweptRow(g, d, 0);
    TopQuiet(r4, d);
    SweptQuiet(g, d, 1, 0);
  }

  /** A top row that none of the four slides changes is left as it is by the move. */
  lemma TopRowStays(d: Direction, row: seq<Cell>)
    requires d == Left || d == Right
    requires |row| == GRID_SIZE
    requires forall k :: 0 <= k < GRID_SIZE ==>
      InBounds(Top(row), Lane(d, 0)[k]) && Slide(Top(row), Lane(d, 0)[k], Delta(d)) == Top(row)
    ensures Sweep(Top(row), d) == Top(row)
  {
    assert Slide(Top(row), Lane(d, 0)[0], Delta(d)) == Top(row);
    assert Slide(Top(row), Lane(d, 0)[1], Delta(d)) == Top(row);
    assert Slide(Top(row), Lane(d, 0)[2], Delta(d)) == Top(row);
    assert Slide(Top(row), Lane(d, 0)[3], Delta(d)) == Top(row);
    TopRowSweep(d, row, row, row, row, row);
  }

  // ---------------------------------------------------------------------------------
  // [0, v, v, 0] under Board.left

  /** The boards the tiles of [0, v, v, 0] pass through. */
  lemma LeftPairBoards(v: int)
    ensures Move(Top([E, Full(v), Full(v), E]), Vec(0, 1), Vec(0, 0)) == Top([Full(v), E, Full(v), E])
    ensures Move(Top([Full(v), E, Full(v), E]), Vec(0, 2), Vec(0, 1)) == Top([Full(v), Full(v), E, E])
    ensures Move(Set(Top([Full(v), Full(v), E, E]), Vec(0, 1), Full(v + v)), Vec(0, 1), Vec(0, 0)) ==
            Top([Full(v + v), E, E, E])
  {
    TopMove([E, Full(v), Full(v), E], 1, 0, [Full(v), E, Full(v), E]);
    TopMove([Full(v), E, Full(v), E], 2, 1, [Full(v), Full(v), E, E]);
    TopMergeMove([Full(v), Full(v), E, E], 1, 0, v + v, [Full(v + v), E, E, E]);
  }

  lemma LeftPairFirst(v: int)
    ensures Travel(Top([E, Full(v), Full(v), E]), Vec(0, 1), Vec(0, -1)) ==
            Trip(Top([Full(v), E, Full(v), E]), Vec(0, 0), false)
  {
    var r0 := [E, Full(v), Full(v), E];
    var r1 := [Full(v), E, Full(v), E];
    LeftPairBoards(v);
    TravelIntoEmpty(Top(r0), Vec(0, 1), Vec(0, -1), Vec(0, 0), Top(r1));
    TravelAtEdge(Top(r1), Vec(0, 0), Vec(0, -1));
  }

  lemma LeftPairSecond(v: int)
    ensures Travel(Top([Full(v), E, Full(v), E]), Vec(0, 2), Vec(0, -1)) ==
            Trip(Top([Full(v + v), E, E, E]), Vec(0, 0), true)
  {
    var r1 := [Full(v), E, Full(v), E];
    var r2 := [Full(v), Full(v), E, E];
    var r3 := [Full(v + v), E, E, E];
    LeftPairBoards(v);
    TravelIntoEmpty(Top(r1), Vec(0, 2), Vec(0, -1), Vec(0, 1), Top(r2));
    TravelMerge(Top(r2), Vec(0, 1), Vec(0, -1), Vec(0, 0), Top(r3));
  }

  /** The four slides of [0, v, v, 0] under Board.left. */
  lemma LeftPairSlides(v: int)
    ensures Slide(Top([E, Full(v), Full(v), E]), Vec(0, 0), Vec(0, -1)) == Top([E, Full(v), Full(v), E])
    ensures Slide(Top([E, Full(v), Full(v), E]), Vec(0, 1), Vec(0, -1)) == Top([Full(v), E, Full(v), E])
    ensures Slide(Top([Full(v), E, Full(v), E]), Vec(0, 2), Vec(0, -1)) == Top([Full(v + v), E, E, E])
    ensures Slide(Top([Full(v + v), E, E, E]), Vec(0, 3), Vec(0, -1)) == Top([Full(v + v), E, E, E])
  {
    SlideFrom(Top([E, Full(v), Full(v), E]), Vec(0, 0), Vec(0, -1));
    SlideFrom(Top([E, Full(v), Full(v), E]), Vec(0, 1), Vec(0, -1));
    LeftPairFirst(v);
    SlideFrom(Top([Full(v), E, Full(v), E]), Vec(0, 2), Vec(0, -1));
    LeftPairSecond(v);
    SlideFrom(Top([Full(v + v), E, E, E]), Vec(0, 3), Vec(0, -1));
  }

  /** Two equal tiles with gaps merge into one tile of twice the value at the edge. */
  lemma LeftPair(v: int)
    ensures Sweep(Top([E, Full(v), Full(v), E]), Left) == Top([Full(v + v), E, E, E])
  {
    LeftPairSlides(v);
    TopRowSweep(Left, [E, Full(v), Full(v), E], [E, Full(v), Full(v), E], [Full(v), E, Full(v), E],
      [Full(v + v), E, E, E], [Full(v + v), E, E, E]);
  }

  /** The row [0, 2, 2, 0] under Board.left becomes [4, 0, 0, 0]. */
  lemma LeftExample()
    ensures Sweep(Top([E, Full(2), Full(2), E]), Left) == Top([Full(4), E, E, E])
  {
    LeftPair(2);
  }

  // ---------------------------------------------------------------------------------
  // [a, a, b, 0] under Board.right

  /** The boards the tiles of [a, a, b, 0] pass through. */
  lemma RightPairBoards(a: int, b: int)
    ensures Move(Top([Full(a), Full(a), Full(b), E]), Vec(0, 2), Vec(0, 3)) == Top([Full(a), Full(a), E, Full(b)])
    ensures Move(Top([Full(a), Full(a), E, Full(b)]), Vec(0, 1), Vec(0, 2)) == Top([Full(a), E, Full(a), Full(b)])
    ensures Move(Top([Full(a), E, Full(a), Full(b)]), Vec(0, 0), Vec(0, 1)) == Top([E, Full(a), Full(a), Full(b)])
    ensures Move(Set(Top([E, Full(a), Full(a), Full(b)]), Vec(0, 1), Full(a + a)), Vec(0, 1), Vec(0, 2)) ==
            Top([E, E, Full(a + a), Full(b)])
  {
    TopMove([Full(a), Full(a), Full(b), E], 2, 3, [Full(a), Full(a), E, Full(b)]);
    TopMove([Full(a), Full(a), E, Full(b)], 1, 2, [Full(a), E, Full(a), Full(b)]);
    TopMove([Full(a), E, Full(a), Full(b)], 0, 1, [E, Full(a), Full(a), Full(b)]);
    TopMergeMove([E, Full(a), Full(a), Full(b)], 1, 2, a + a, [E, E, Full(a + a), Full(b)]);
  }

  lemma RightPairFirst(a: int, b: int)
    ensures Travel(Top([Full(a), Full(a), Full(b), E]), Vec(0, 2), Vec(0, 1)) ==
            Trip(Top([Full(a), Full(a), E, Full(b)]), Vec(0, 3), false)
  {
    var r0 := [Full(a), Full(a), Full(b), E];
    var r1 := [Full(a), Full(a), E, Full(b)];
    RightPairBoards(a, b);
    TravelIntoEmpty(Top(r0), Vec(0, 2), Vec(0, 1), Vec(0, 3), Top(r1));
    TravelAtEdge(Top(r1), Vec(0, 3), Vec(0, 1));
  }

  lemma RightPairSecond(a: int, b: int)
    requires a != b
    ensures Travel(Top([Full(a), Full(a), E, Full(b)]), Vec(0, 1), Vec(0, 1)) ==
            Trip(Top([Full(a), E, Full(a), Full(b)]), Vec(0, 2), false)
  {
    var r1 := [Full(a), Full(a), E, Full(b)];
    var r2 := [Full(a), E, Full(a), Full(b)];
    RightPairBoards(a, b);
    TravelIntoEmpty(Top(r1), Vec(0, 1), Vec(0, 1), Vec(0, 2), Top(r2));
    TravelBlocked(Top(r2), Vec(0, 2), Vec(0, 1), Vec(0, 3));
  }

  lemma RightPairEnter(a: int, b: int)
    ensures Travel(Top([Full(a), E, Full(a), Full(b)]), Vec(0, 0), Vec(0, 1)) ==
            Travel(Top([E, Full(a), Full(a), Full(b)]), Vec(0, 1), Vec(0, 1))
  {
    var r2 := [Full(a), E, Full(a), Full(b)];
    var r3 := [E, Full(a), Full(a), Full(b)];
    RightPairBoards(a, b);
    TravelIntoEmpty(Top(r2), Vec(0, 0), Vec(0, 1), Vec(0, 1), Top(r3));
  }

  lemma RightPairMerge(a: int, b: int)
    ensures Travel(Top([E, Full(a), Full(a), Full(b)]), Vec(0, 1), Vec(0, 1)) ==
            Trip(Top([E, E, Full(a + a), Full(b)]), Vec(0, 2), true)
  {
    var r3 := [E, Full(a), Full(a), Full(b)];
    var r4 := [E, E, Full(a + a), Full(b)];
    RightPairBoards(a, b);
    TravelMerge(Top(r3), Vec(0, 1), Vec(0, 1), Vec(0, 2), Top(r4));
  }

  lemma RightPairThird(a: int, b: int)
    ensures Travel(Top([Full(a), E, Full(a), Full(b)]), Vec(0, 0), Vec(0, 1)) ==
            Trip(Top([E, E, Full(a + a), Full(b)]), Vec(0, 2), true)
  {
    RightPairEnter(a, b);
    RightPairMerge(a, b);
  }

  /** The four slides of [a, a, b, 0] under Board.right, from the right edge inwards. */
  lemma RightPairSlides(a: int, b: int)
    requires a != b
    ensures Slide(Top([Full(a), Full(a), Full(b), E]), Vec(0, 3), Vec(0, 1)) == Top([Full(a), Full(a), Full(b), E])
    ensures Slide(Top([Full(a), Full(a), Full(b), E]), Vec(0, 2), Vec(0, 1)) == Top([Full(a), Full(a), E, Full(b)])
    ensures Slide(Top([Full(a), Full(a), E, Full(b)]), Vec(0, 1), Vec(0, 1)) == Top([Full(a), E, Full(a), Full(b)])
    ensures Slide(Top([Full(a), E, Full(a), Full(b)]), Vec(0, 0), Vec(0, 1)) == Top([E, E, Full(a + a), Full(b)])
  {
    SlideFrom(Top([Full(a), Full(a), Full(b), E]), Vec(0, 3), Vec(0, 1));
    SlideFrom(Top([Full(a), Full(a), Full(b), E]), Vec(0, 2), Vec(0, 1));
    RightPairFirst(a, b);
    SlideFrom(Top([Full(a), Full(a), E, Full(b)]), Vec(0, 1), Vec(0, 1));
    RightPairSecond(a, b);
    SlideFrom(Top([Full(a), E, Full(a), Full(b)]), Vec(0, 0), Vec(0, 1));
    RightPairThird(a, b);
  }

  /** A pair merges against a tile of another value, which stops it. */
  lemma RightPair(a: int, b: int)
    requires a != b
    ensures Sweep(Top([Full(a), Full(a), Full(b), E]), Right) == Top([E, E, Full(a + a), Full(b)])
  {
    RightPairSlides(a, b);
    TopRowSweep(Right, [Full(a), Full(a), Full(b), E], [Full(a), Full(a), Full(b), E],
      [Full(a), Full(a), E, Full(b)], [Full(a), E, Full(a), Full(b)], [E, E, Full(a + a), Full(b)]);
  }

  /** The row [4, 4, 2, 0] under Board.right becomes [0, 0, 8, 2]. */
  lemma RightExample()
    ensures Sweep(Top([Full(4), Full(4), Full(2), E]), Right) == Top([E, E, Full(8), Full(2)])
  {
    RightPair(4, 2);
  }

  // ---------------------------------------------------------------------------------
  // [a, b, a, b] under Board.left

  /** A full row of alternating values has nowhere to go. */
  lemma LeftStuck(a: int, b: int)
    requires a != b
    ensures Sweep(Top([Full(a), Full(b), Full(a), Full(b)]), Left) == Top([Full(a), Full(b), Full(a), Full(b)])
  {
    // The leftmost tile is at the edge and every other one is blocked by its
    // neighbour, so none of the four slides changes the row.
    TopRowStays(Left, [Full(a), Full(b), Full(a), Full(b)]);
  }

  /** The row [2, 4, 2, 4] under Board.left stays [2, 4, 2, 4]. */
  lemma StuckExample()
    ensures Sweep(Top([Full(2), Full(4), Full(2), Full(4)]), Left) == Top([Full(2), Full(4), Full(2), Full(4)])
  {
    LeftStuck(2, 4);
  }

  // ---------------------------------------------------------------------------------
  // [v, v, v + v, 0] under Board.left: a later slide merges into a fresh merge

  /** The boards the tiles of [v, v, v + v, 0] pass through. */
  lemma ChainBoards(v: int)
    ensures Move(Set(Top([Full(v), Full(v), Full(v + v), E]), Vec(0, 1), Full(v + v)), Vec(0, 1), Vec(0, 0)) ==
            Top([Full(v + v), E, Full(v + v), E])
    ensures Move(Top([Full(v + v), E, Full(v + v), E]), Vec(0, 2), Vec(0, 1)) == Top([Full(v + v), Full(v + v), E, E])
    ensures Move(Set(Top([Full(v + v), Full(v + v), E, E]), Vec(0, 1), Full((v + v) + (v + v))), Vec(0, 1), Vec(0, 0)) ==
            Top([Full((v + v) + (v + v)), E, E, E])
  {
    TopMergeMove([Full(v), Full(v), Full(v + v), E], 1, 0, v + v, [Full(v + v), E, Full(v + v), E]);
    TopMove([Full(v + v), E, Full(v + v), E], 2, 1, [Full(v + v), Full(v + v), E, E]);
    TopMergeMove([Full(v + v), Full(v + v), E, E], 1, 0, (v + v) + (v + v), [Full((v + v) + (v + v)), E, E, E]);
  }

  lemma ChainFirst(v: int)
    ensures Travel(Top([Full(v), Full(v), Full(v + v), E]), Vec(0, 1), Vec(0, -1)) ==
            Trip(Top([Full(v + v), E, Full(v + v), E]), Vec(0, 0), true)
  {
    var r0 := [Full(v), Full(v), Full(v + v), E];
    var r1 := [Full(v + v), E, Full(v + v), E];
    ChainBoards(v);
    TravelMerge(Top(r0), Vec(0, 1), Vec(0, -1), Vec(0, 0), Top(r1));
  }

  lemma ChainSecond(v: int)
    ensures Travel(Top([Full(v + v), E, Full(v + v), E]), Vec(0, 2), Vec(0, -1)) ==
            Trip(Top([Full((v + v) + (v + v)), E, E, E]), Vec(0, 0), true)
  {
    var r2 := [Full(v + v), E, Full(v + v), E];
    var r3 := [Full(v + v), Full(v + v), E, E];
    var r4 := [Full((v + v) + (v + v)), E, E, E];
    ChainBoards(v);
    TravelIntoEmpty(Top(r2), Vec(0, 2), Vec(0, -1), Vec(0, 1), Top(r3));
    TravelMerge(Top(r3), Vec(0, 1), Vec(0, -1), Vec(0, 0), Top(r4));
  }

  lemma ChainSlide0(v: int)
    ensures Slide(Top([Full(v), Full(v), Full(v + v), E]), Vec(0, 0), Vec(0, -1)) == Top([Full(v), Full(v), Full(v + v), E])
  {
    SlideFrom(Top([Full(v), Full(v), Full(v + v), E]), Vec(0, 0), Vec(0, -1));
    TravelAtEdge(Top([Full(v), Full(v), Full(v + v), E]), Vec(0, 0), Vec(0, -1));
  }

  lemma ChainSlide1(v: int)
    ensures Slide(Top([Full(v), Full(v), Full(v + v), E]), Vec(0, 1), Vec(0, -1)) == Top([Full(v + v), E, Full(v + v), E])
  {
    SlideFrom(Top([Full(v), Full(v), Full(v + v), E]), Vec(0, 1), Vec(0, -1));
    ChainFirst(v);
  }

  lemma ChainSlide2(v: int)
    ensures Slide(Top([Full(v + v), E, Full(v + v), E]), Vec(0, 2), Vec(0, -1)) == Top([Full((v + v) + (v + v)), E, E, E])
  {
    SlideFrom(Top([Full(v + v), E, Full(v + v), E]), Vec(0, 2), Vec(0, -1));
    ChainSecond(v);
  }

  lemma ChainSlide3(v: int)
    ensures Slide(Top([Full((v + v) + (v + v)), E, E, E]), Vec(0, 3), Vec(0, -1)) == Top([Full((v + v) + (v + v)), E, E, E])
  {
    SlideFrom(Top([Full((v + v) + (v + v)), E, E, E]), Vec(0, 3), Vec(0, -1));
  }

  /** The tile made by the first merge of a move is merged into again by the tile
      slid after it: one move turns [v, v, v + v, 0] into a single tile of 4v. */
  lemma LeftChain(v: int)
    ensures Sweep(Top([Full(v), Full(v), Full(v + v), E]), Left) == Top([Full((v + v) + (v + v)), E, E, E])
  {
    ChainSlide0(v);
    ChainSlide1(v);
    ChainSlide2(v);
    ChainSlide3(v);
    TopRowSweep(Left, [Full(v), Full(v), Full(v + v), E], [Full(v), Full(v), Full(v + v), E],
      [Full(v + v), E, Full(v + v), E], [Full((v + v) + (v + v)), E, E, E], [Full((v + v) + (v + v)), E, E, E]);
  }

  /** The row [2, 2, 4, 0] under Board.left becomes [8, 0, 0, 0]. */
  lemma ChainExample()
    ensures Sweep(Top([Full(2), Full(2), Full(4), E]), Left) == Top([Full(8), E, E, E])
  {
    LeftChain(2);
  }

  // ---------------------------------------------------------------------------------
  // A board wider than GRID_SIZE

  const BLANK5: seq<Cell> := [E, E, E, E, E]

  /** The 4 x 5 board whose top row is `row` and whose other rows are empty. The moves
      and score visit only its first four columns, but in_bounds admits the fifth. */
  function Wide(row: seq<Cell>): (g: Matrix)
    requires |row| == GRID_SIZE + 1
    ensures Shaped(g, GRID_SIZE, GRID_SIZE + 1) && Fits(g) && g[0] == row
  {
    [row, BLANK5, BLANK5, BLANK5]
  }

  lemma WideBoards(v: int)
    ensures Move(Wide([E, E, E, Full(v), E]), Vec(0, 3), Vec(0, 4)) == Wide([E, E, E, E, Full(v)])
  {
    var g := Wide([E, E, E, Full(v), E]);
    var h := Move(g, Vec(0, 3), Vec(0, 4));
    assert h[0] == [E, E, E, E, Full(v)];
  }

  /** Sliding right from column 3 carries the tile into column 4, out of the corner. */
  lemma WideSlide(v: int)
    ensures Slide(Wide([E, E, E, Full(v), E]), Vec(0, 3), Vec(0, 1)) == Wide([E, E, E, E, Full(v)])
  {
    var g := Wide([E, E, E, Full(v), E]);
    var h := Wide([E, E, E, E, Full(v)]);
    WideBoards(v);
    TravelIntoEmpty(g, Vec(0, 3), Vec(0, 1), Vec(0, 4), h);
    TravelAtEdge(h, Vec(0, 4), Vec(0, 1));
    SlideFrom(g, Vec(0, 3), Vec(0, 1));
  }

  /** Every cell of the wide board's first four columns is empty once the tile is in
      column 4, so nothing is left for the rest of Board.right to move. */
  lemma WideQuiet(v: int)
    ensures QuietFrom(Wide([E, E, E, E, Full(v)]), Right, 0, 1)
  {
    var h := Wide([E, E, E, E, Full(v)]);
    forall m, j | 0 <= m < GRID_SIZE && 0 <= j < GRID_SIZE && (m > 0 || j >= 1)
      ensures InBounds(h, Lane(Right, m)[j]) && Get(h, Lane(Right, m)[j]).Empty?
    {
      LaneAt(Right, m, j);
      var c := GRID_SIZE - 1 - j;
      assert h[m][c] == E by {
        if m == 0 {
          assert h[0] == [E, E, E, E, Full(v)];
        } else {
          assert h[m] == BLANK5;
        }
      }
    }
  }

  /** Board.right on the wide board: the first slide moves the tile into column 4, and
      every cell visited after it is empty. */
  lemma WideRight(v: int)
    ensures Sweep(Wide([E, E, E, Full(v), E]), Right) == Wide([E, E, E, E, Full(v)])
  {
    var g := Wide([E, E, E, Full(v), E]);
    WideSlide(v);
    SweptEnds(g, Right);
    LaneAt(Right, 0, 0);
    SweptNext(g, Right, 0, 0);
    WideQuiet(v);
    SweptQuiet(g, Right, 0, 1);
  }

  /** A board without tiles has total 0 under any weight that gives empty cells 0. */
  lemma {:induction false} BlankRowTotal(row: seq<Cell>, f: Cell -> int)
    requires f(Empty) == 0 && forall c :: 0 <= c < |row| ==> row[c] == Empty
    ensures RowTotal(row, f) == 0
    decreases |row|
  {
    if row != [] {
      BlankRowTotal(row[..|row| - 1], f);
    }
  }

  lemma {:induction false} BlankTotal(g: Matrix, f: Cell -> int)
    requires f(Empty) == 0 && forall r, c :: 0 <= r < |g| && 0 <= c < |g[r]| ==> g[r][c] == Empty
    ensures Total(g, f) == 0
    decreases |g|
  {
    if g != [] {
      var init := g[..|g| - 1];
      assert forall r :: 0 <= r < |init| ==> init[r] == g[r];
      BlankTotal(init, f);
      BlankRowTotal(g[|g| - 1], f);
    }
  }

  /** The score counts the tile in column 3 but not in column 4; to_list counts both. */
  lemma WideScores(v: int)
    ensures Score(Wide([E, E, E, Full(v), E])) == v
    ensures Score(Wide([E, E, E, E, Full(v)])) == 0
    ensures Bookkeeping.ListSum(ToList(Wide([E, E, E, E, Full(v)]))) == v
  {
    var g := Wide([E, E, E, Full(v), E]);
    var h := Wide([E, E, E, E, Full(v)]);
    var blank4 := Top(BLANK);
    var blank5 := Wide(BLANK5);
    assert BLANK5[..GRID_SIZE] == BLANK;
    assert Block(g) == Set(blank4, Vec(0, 3), Full(v)) by {
      assert Block(g)[0] == [E, E, E, Full(v)] == BLANK[3 := Full(v)];
      assert Block(g)[1] == Block(g)[2] == Block(g)[3] == BLANK;
      TopSet(BLANK, 3, Full(v));
    }
    BlankTotal(blank4, Value);
    GridLemmas.SetTotal(blank4, Vec(0, 3), Full(v), Value);
    assert Block(h) == blank4 by {
      assert Block(h)[0] == BLANK;
      assert Block(h)[1] == Block(h)[2] == Block(h)[3] == BLANK;
    }
    assert h == Set(blank5, Vec(0, 4), Full(v)) by {
      assert Set(blank5, Vec(0, 4), Full(v))[0] == [E, E, E, E, Full(v)];
    }
    BlankTotal(blank5, Value);
    GridLemmas.SetTotal(blank5, Vec(0, 4), Full(v), Value);
    Bookkeeping.TotalIsListSum(h);
  }

  /** On a board wider than GRID_SIZE a move can lose score, a single slide can lose
      score, and the score differs from the sum of to_list. */
  lemma WideBoardLosesScore(v: int)
    requires v != 0
    ensures Score(Sweep(Wide([E, E, E, Full(v), E]), Right)) != Score(Wide([E, E, E, Full(v), E]))
    ensures Score(Slide(Wide([E, E, E, Full(v), E]), Vec(0, 3), Vec(0, 1))) != Score(Wide([E, E, E, Full(v), E]))
    ensures Score(Wide([E, E, E, E, Full(v)])) != Bookkeeping.ListSum(ToList(Wide([E, E, E, E, Full(v)])))
  {
    WideRight(v);
    WideSlide(v);
    WideScores(v);
  }
}
