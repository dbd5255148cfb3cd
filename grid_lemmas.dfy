/** What the operations of module Grid promise: a slide keeps its tile on the board,
    walks it over empty cells to the first obstacle along its direction, conserves
    the total value and loses exactly one tile per merge; the directional moves
    conserve the score, never add a tile and, when nothing merges, keep the multiset
    of tile values. */
module GridLemmas {
  import opened Vectors
  import opened Grid

  // ---------------------------------------------------------------------------------
  // Totals over the cells: the value of the board, its tiles, and how often a value occurs

  /** The sum of the values of all tiles on the board. */
  function GridSum(g: Matrix): int {
    Total(g, Value)
  }

  function IsTile(c: Cell): int {
    if c.Full? then 1 else 0
  }

  /** The number of tiles on the board. */
  function Count(g: Matrix): int {
    Total(g, IsTile)
  }

  /** The number of tiles of value `w` on the board: the multiplicity of `w` in the
      multiset of tile values. */
  function Occurrences(g: Matrix, w: int): int {
    Total(g, c => if c == Full(w) then 1 else 0)
  }

  lemma {:induction false} RowTotalUpdate(row: seq<Cell>, i: nat, c: Cell, f: Cell -> int)
    requires i < |row|
    ensures RowTotal(row[i := c], f) + f(row[i]) == RowTotal(row, f) + f(c)
    decreases |row|
  {
    var n := |row| - 1;
    var row' := row[i := c];
    assert RowTotal(row', f) == RowTotal(row'[..n], f) + f(row'[n]);
    assert RowTotal(row, f) == RowTotal(row[..n], f) + f(row[n]);
    if i < n {
      assert row'[..n] == row[..n][i := c];
      RowTotalUpdate(row[..n], i, c, f);
    } else {
      assert row'[..n] == row[..n];
    }
  }

  /** Writing one cell changes a total over the cells by exactly what the cell
      contributed before and contributes now. */
  lemma {:induction false} SetTotal(g: Matrix, p: Vec, c: Cell, f: Cell -> int)
    requires InBounds(g, p)
    ensures Total(Set(g, p, c), f) + f(Get(g, p)) == Total(g, f) + f(c)
    decreases |g|
  {
    var n := |g| - 1;
    var h := Set(g, p, c);
    assert Total(h, f) == Total(h[..n], f) + RowTotal(h[n], f);
    assert Total(g, f) == Total(g[..n], f) + RowTotal(g[n], f);
    if p.x < n {
      assert h[..n] == Set(g[..n], p, c);
      assert h[n] == g[n];
      SetTotal(g[..n], p, c, f);
    } else {
      assert h[..n] == g[..n];
      assert h[n] == g[n][p.y := c];
      RowTotalUpdate(g[n], p.y, c, f);
    }
  }

  lemma SetTwice(g: Matrix, p: Vec, a: Cell, b: Cell)
    requires InBounds(g, p)
    ensures Set(Set(g, p, a), p, b) == Set(g, p, b)
  {
    assert Set(g, p, a)[p.x][p.y := b] == g[p.x][p.y := b];
  }

  /** Boards of the same shape have the same positions and the same reach. */
  lemma ReachOfShape(g: Matrix, h: Matrix, p: Vec, dir: Vec)
    requires SameShape(g, h) && InBounds(g, p)
    ensures InBounds(h, p) && Reach(h, p, dir) == Reach(g, p, dir)
  {
    assert |h[p.x]| == |g[p.x]|;
  }

  /** Moving a tile into an empty cell keeps every total over the cells. */
  lemma MoveKeepsTotal(g: Matrix, from: Vec, to: Vec, f: Cell -> int)
    requires InBounds(g, from) && InBounds(g, to) && from != to && Get(g, to).Empty?
    ensures Total(Move(g, from, to), f) == Total(g, f)
  {
    var g1 := Set(g, to, Get(g, from));
    SetTotal(g, to, Get(g, from), f);
    SetTotal(g1, from, Empty, f);
  }

  // ---------------------------------------------------------------------------------
  // Board.slide

  /** A slide (direction not zero) ends on the board, never behind the cell it started
      from, and a merge always ends on another cell. */
  lemma {:induction false} TravelReach(g: Matrix, p: Vec, dir: Vec)
    requires InBounds(g, p) && Get(g, p).Full? && dir != ZERO
    ensures var t := Travel(g, p, dir);
      InBounds(t.grid, t.dest) && (t.merged ==> t.dest != p) &&
      (t.dest == p || Reach(g, t.dest, dir) < Reach(g, p, dir))
    decreases Reach(g, p, dir)
  {
    var next := p.Add(dir);
    NonZeroStepMoves(p, dir);
    if InBounds(g, next) && Get(g, next).Empty? {
      var g' := Move(g, p, next);
      ReachDecreases(g, p, dir);
      TravelReach(g', next, dir);
      var t := Travel(g', next, dir);
      ReachOfShape(g, g', t.dest, dir);
      ReachOfShape(g, g', next, dir);
    }
  }

  /** A slide (direction not zero) changes only the cell it starts from, which it leaves
      empty, and the cell where it ends. */
  lemma {:induction false} TravelFrame(g: Matrix, p: Vec, dir: Vec)
    requires InBounds(g, p) && Get(g, p).Full? && dir != ZERO
    ensures var t := Travel(g, p, dir);
      (t.dest != p ==> Get(t.grid, p).Empty?) &&
      (forall q :: InBounds(g, q) && q != p && q != t.dest ==> Get(t.grid, q) == Get(g, q))
    decreases Reach(g, p, dir)
  {
    var next := p.Add(dir);
    NonZeroStepMoves(p, dir);
    if InBounds(g, next) && Get(g, next).Empty? {
      var g' := Move(g, p, next);
      ReachDecreases(g, p, dir);
      TravelFrame(g', next, dir);
      TravelReach(g', next, dir);
      var t := Travel(g', next, dir);
      assert Travel(g, p, dir) == t;
      ReachOfShape(g, g', t.dest, dir);
      ReachOfShape(g, g', next, dir);
      assert t.dest != p;
      forall q | InBounds(g, q) && q != p && q != t.dest
        ensures Get(t.grid, q) == Get(g, q)
      {
        assert InBounds(g', q);
        if q != next {
          assert Get(t.grid, q) == Get(g', q);
        }
      }
    }
  }

  /** Where a slide that starts on a tile of value v ends (direction not zero): if it
      merged, on a cell that held another tile of value v and now holds v + v; if it did
      not merge, holding v, with the edge or a tile of a different value just beyond. */
  lemma {:induction false} TravelStop(g: Matrix, p: Vec, dir: Vec)
    requires InBounds(g, p) && Get(g, p).Full? && dir != ZERO
    ensures var t := Travel(g, p, dir);
      var v := Get(g, p).value;
      InBounds(g, t.dest) && InBounds(t.grid, t.dest) &&
      (t.merged ==> Get(g, t.dest) == Full(v) && Get(t.grid, t.dest) == Full(v + v)) &&
      (!t.merged ==> Get(t.grid, t.dest) == Full(v)) &&
      (!t.merged ==> (!InBounds(t.grid, t.dest.Add(dir)) ||
         (Get(t.grid, t.dest.Add(dir)).Full? && Get(t.grid, t.dest.Add(dir)).value != v)))
    decreases Reach(g, p, dir)
  {
    var v := Get(g, p).value;
    var next := p.Add(dir);
    NonZeroStepMoves(p, dir);
    TravelReach(g, p, dir);
    if !InBounds(g, next) {
    } else if Get(g, next).Empty? {
      var g' := Move(g, p, next);
      ReachDecreases(g, p, dir);
      TravelStop(g', next, dir);
      TravelReach(g', next, dir);
      var t := Travel(g', next, dir);
      assert Travel(g, p, dir) == t;
      if t.merged {
        assert t.dest != next && t.dest != p;
        assert Get(g', t.dest) == Get(g, t.dest);
      }
    } else if Get(g, next).value == v {
    } else {
    }
  }

  /** The cell `k` steps along `dir` from `p`. */
  function Off(p: Vec, dir: Vec, k: nat): Vec
    decreases k
  {
    if k == 0 then p else Off(p, dir, k - 1).Add(dir)
  }

  /** Walking k steps is moving by k times the direction. */
  lemma {:induction false} OffClosed(p: Vec, dir: Vec, k: nat)
    ensures Off(p, dir, k) == Vec(p.x + k * dir.x, p.y + k * dir.y)
    decreases k
  {
    if k > 0 {
      OffClosed(p, dir, k - 1);
    }
  }

  /** The walk from the next cell is the walk from `p`, one step on. */
  lemma {:induction false} OffShift(p: Vec, dir: Vec, k: nat)
    ensures Off(p.Add(dir), dir, k) == Off(p, dir, k + 1)
    decreases k
  {
    if k > 0 {
      OffShift(p, dir, k - 1);
    }
  }

  /** A walk of at least one non-zero step never comes back to its start. */
  lemma OffLeaves(p: Vec, dir: Vec, k: nat)
    requires dir != ZERO && k > 0
    ensures Off(p, dir, k) != p
  {
    OffClosed(p, dir, k);
    if dir.x != 0 {
      assert k * dir.x != 0;
    } else {
      assert k * dir.y != 0;
    }
  }

  /** Trip `t` from `p` ends `k` steps along `dir`, every cell passed over is an empty
      cell of `g`, the end cell was empty when the trip moved without merging, and a
      merge is at least one step away. */
  ghost predicate Walk(g: Matrix, p: Vec, dir: Vec, t: Trip, k: nat) {
    t.dest == Off(p, dir, k) &&
    (forall j :: 0 < j < k ==> InBounds(g, Off(p, dir, j)) && Get(g, Off(p, dir, j)).Empty?) &&
    (!t.merged && k > 0 ==> InBounds(g, t.dest) && Get(g, t.dest).Empty?) &&
    (t.merged ==> k > 0)
  }

  /** A walk from the empty next cell, on the board after the step into it, is a walk
      one step longer from `p` on the board before. */
  lemma WalkBack(g: Matrix, p: Vec, dir: Vec, t: Trip, k: nat)
    requires InBounds(g, p) && Get(g, p).Full? && dir != ZERO
    requires InBounds(g, p.Add(dir)) && Get(g, p.Add(dir)).Empty?
    requires Walk(Move(g, p, p.Add(dir)), p.Add(dir), dir, t, k)
    ensures Walk(g, p, dir, t, k + 1)
  {
    var next := p.Add(dir);
    var g' := Move(g, p, next);
    OffShift(p, dir, k);
    assert Off(p, dir, 1) == next;
    forall j | 0 < j < k + 1
      ensures InBounds(g, Off(p, dir, j)) && Get(g, Off(p, dir, j)).Empty?
    {
      if j > 1 {
        var q := Off(p, dir, j);
        OffShift(p, dir, j - 1);
        OffLeaves(p, dir, j);
        assert InBounds(g', q) && Get(g', q).Empty?;
      }
    }
    if !t.merged && k > 0 {
      OffLeaves(p, dir, k + 1);
      assert InBounds(g', t.dest) && Get(g', t.dest).Empty?;
    }
  }

  /** A slide (direction not zero) walks along `dir`: it ends `k` steps from its start,
      every cell it passed over was an empty cell of the board, and it ended on an empty
      cell when it moved without merging; a merge is at least one step away. With
      TravelStop, the end cell is the first obstacle on the line from `p`. */
  lemma {:induction false} TravelLine(g: Matrix, p: Vec, dir: Vec)
    requires InBounds(g, p) && Get(g, p).Full? && dir != ZERO
    ensures exists k: nat :: Walk(g, p, dir, Travel(g, p, dir), k)
    decreases Reach(g, p, dir)
  {
    var next := p.Add(dir);
    var t := Travel(g, p, dir);
    assert Off(p, dir, 1) == next;
    if !InBounds(g, next) {
      assert t == Trip(g, p, false);
      assert Walk(g, p, dir, t, 0);
    } else if Get(g, next).Empty? {
      var g' := Move(g, p, next);
      ReachDecreases(g, p, dir);
      TravelLine(g', next, dir);
      assert t == Travel(g', next, dir);
      var k :| Walk(g', next, dir, t, k);
      WalkBack(g, p, dir, t, k);
    } else if Get(g, next).value == Get(g, p).value {
      assert t.dest == next && t.merged;
      assert Walk(g, p, dir, t, 1);
    } else {
      assert t == Trip(g, p, false);
      assert Walk(g, p, dir, t, 0);
    }
  }

  /** The merge at the end of a slide, written out cell by cell: the moving tile at `p`
      takes the sum and then moves onto `next`, which held a tile of the same value. */
  lemma MergeTotal(g: Matrix, p: Vec, next: Vec, f: Cell -> int)
    requires InBounds(g, p) && InBounds(g, next) && p != next
    requires Get(g, p).Full? && Get(g, next) == Get(g, p) && f(Empty) == 0
    ensures var v := Get(g, p).value;
      Total(Move(Set(g, p, Full(v + v)), p, next), f) + f(Full(v)) + f(Full(v)) ==
        Total(g, f) + f(Full(v + v))
  {
    var v := Get(g, p).value;
    var g1 := Set(g, p, Full(v + v));
    var g2 := Set(g1, next, Get(g1, p));
    assert Get(g1, next) == Full(v) && Get(g2, p) == Full(v + v);
    assert Move(g1, p, next) == Set(g2, p, Empty);
    SetTotal(g, p, Full(v + v), f);
    SetTotal(g1, next, Full(v + v), f);
    SetTotal(g2, p, Empty, f);
  }

  /** The bookkeeping of one slide of a tile of value v under the weight f: a merge
      takes away two weights of v and adds one of v + v, a plain move changes nothing. */
  ghost predicate Balanced(g: Matrix, t: Trip, v: int, f: Cell -> int)
  {
    Total(t.grid, f) + (if t.merged then f(Full(v)) + f(Full(v)) else 0) ==
      Total(g, f) + (if t.merged then f(Full(v + v)) else 0)
  }

  /** A slide (direction not zero) keeps every total over the cells when it ends
      without a merge; a merge trades two cells of value v for one of value v + v. */
  lemma {:induction false} TravelTotal(g: Matrix, p: Vec, dir: Vec, f: Cell -> int)
    requires InBounds(g, p) && Get(g, p).Full? && dir != ZERO
    requires f(Empty) == 0
    ensures Balanced(g, Travel(g, p, dir), Get(g, p).value, f)
    decreases Reach(g, p, dir)
  {
    var v := Get(g, p).value;
    var next := p.Add(dir);
    var t := Travel(g, p, dir);
    NonZeroStepMoves(p, dir);
    if !InBounds(g, next) {
      assert t == Trip(g, p, false);
    } else if Get(g, next).Empty? {
      var g' := Move(g, p, next);
      assert t == Travel(g', next, dir);
      assert Total(g', f) == Total(g, f) by {
        MoveKeepsTotal(g, p, next, f);
      }
      assert Get(g', next) == Full(v) by {
        assert Get(g', next) == Get(g, p);
      }
      ReachDecreases(g, p, dir);
      TravelTotal(g', next, dir, f);
      assert Balanced(g', t, v, f);
    } else if Get(g, next).value == v {
      assert t == Trip(Move(Set(g, p, Full(v + v)), p, next), next, true);
      MergeTotal(g, p, next, f);
    } else {
      assert t == Trip(g, p, false);
    }
  }

  /** A slide (direction not zero) conserves the total value; when it ends without a
      merge every value occurs on as many tiles as before; a merge turns two tiles of
      value v into one of value v + v, so the tile count drops by exactly one. */
  lemma TravelTiles(g: Matrix, p: Vec, dir: Vec)
    requires InBounds(g, p) && Get(g, p).Full? && dir != ZERO
    ensures var t := Travel(g, p, dir);
      var v := Get(g, p).value;
      GridSum(t.grid) == GridSum(g) &&
      Count(t.grid) == (if t.merged then Count(g) - 1 else Count(g)) &&
      (!t.merged ==> forall w :: Occurrences(t.grid, w) == Occurrences(g, w)) &&
      (t.merged ==> forall w :: Occurrences(t.grid, w) + (if w == v then 2 else 0) ==
                               Occurrences(g, w) + (if w == v + v then 1 else 0))
  {
    var t := Travel(g, p, dir);
    var v := Get(g, p).value;
    TravelTotal(g, p, dir, Value);
    TravelTotal(g, p, dir, IsTile);
    forall w
      ensures Occurrences(t.grid, w) + (if t.merged && w == v then 2 else 0) ==
              Occurrences(g, w) + (if t.merged && w == v + v then 1 else 0)
    {
      TravelTotal(g, p, dir, c => if c == Full(w) then 1 else 0);
    }
  }

  /** With the zero direction Board.slide merges the tile with itself (its value now
      doubled) and then _move_tile clears the cell: the tile disappears. */
  lemma SlideInPlace(g: Matrix, p: Vec)
    requires InBounds(g, p) && Get(g, p).Full?
    ensures Slide(g, p, ZERO) == Set(g, p, Empty)
    ensures GridSum(Slide(g, p, ZERO)) == GridSum(g) - Get(g, p).value
  {
    var v := Get(g, p).value;
    assert p.Add(ZERO) == p;
    var g1 := Set(g, p, Full(v + v));
    var g2 := Set(g1, p, Get(g1, p));
    SetTwice(g1, p, Get(g1, p), Empty);
    SetTwice(g, p, Full(v + v), Empty);
    SetTotal(g, p, Empty, Value);
  }

  /** Every value occurs on as many tiles of `h` as of `g`: the two boards carry the
      same multiset of tile values. */
  ghost predicate SameTiles(g: Matrix, h: Matrix) {
    forall w :: Occurrences(h, w) == Occurrences(g, w)
  }

  /** A slide (direction not zero) conserves the total value and never adds a tile; if
      it keeps the tile count it keeps the multiset of tile values. From an empty cell
      it leaves the board as it was. */
  lemma SlideConserves(g: Matrix, p: Vec, dir: Vec)
    requires InBounds(g, p) && dir != ZERO
    ensures GridSum(Slide(g, p, dir)) == GridSum(g)
    ensures Count(Slide(g, p, dir)) <= Count(g)
    ensures Count(Slide(g, p, dir)) == Count(g) ==> SameTiles(g, Slide(g, p, dir))
    ensures Get(g, p).Empty? ==> Slide(g, p, dir) == g
  {
    if Get(g, p).Full? {
      TravelTiles(g, p, dir);
    }
  }

  // ---------------------------------------------------------------------------------
  // Sequences of slides and the directional moves

  /** A move part-way through conserves the total value and never adds tiles; when it
      has as many tiles as it started with, no slide so far merged and the multiset of
      tile values is unchanged. */
  lemma {:induction false} SweptConserves(g: Matrix, d: Direction, n: nat, i: nat)
    requires Fits(g) && n <= GRID_SIZE && i <= GRID_SIZE && (n < GRID_SIZE || i == 0)
    ensures GridSum(Swept(g, d, n, i)) == GridSum(g)
    ensures Count(Swept(g, d, n, i)) <= Count(g)
    ensures Count(Swept(g, d, n, i)) == Count(g) ==> SameTiles(g, Swept(g, d, n, i))
    decreases n, i
  {
    if i > 0 {
      SweptConserves(g, d, n, i - 1);
      SweptNext(g, d, n, i - 1);
      SlideConserves(Swept(g, d, n, i - 1), Lane(d, n)[i - 1], Delta(d));
    } else if n > 0 {
      SweptConserves(g, d, n - 1, GRID_SIZE);
    }
  }

  /** A 4 x 4 board is its own GRID_SIZE corner, so its score is its total value. */
  lemma ScoreIsTotal(g: Matrix)
    requires Shaped(g, GRID_SIZE, GRID_SIZE)
    ensures Fits(g) && Score(g) == GridSum(g)
  {
    assert Block(g) == g by {
      forall r | 0 <= r < GRID_SIZE
        ensures Block(g)[r] == g[r]
      {
        assert g[r][..GRID_SIZE] == g[r];
      }
    }
  }

  /** Board.right, left, up and down keep the score of a 4 x 4 board and never add a
      tile; a move that merges nothing keeps the multiset of tile values. */
  lemma SweepConserves(g: Matrix, d: Direction)
    requires Shaped(g, GRID_SIZE, GRID_SIZE)
    ensures Fits(g) && Shaped(Sweep(g, d), GRID_SIZE, GRID_SIZE)
    ensures Score(Sweep(g, d)) == Score(g)
    ensures Count(Sweep(g, d)) <= Count(g)
    ensures Count(Sweep(g, d)) == Count(g) ==> SameTiles(g, Sweep(g, d))
  {
    var h := Sweep(g, d);
    assert Fits(g);
    SweptConserves(g, d, GRID_SIZE, 0);
    ScoreIsTotal(g);
    ScoreIsTotal(h);
  }
}
