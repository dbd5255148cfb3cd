/** What the bookkeeping operations of Board promise: score is the sum of to_list,
    to_list and from_list undo each other, _empty_positions lists exactly the empty
    cells in the order of its loops, has_empty agrees with both, and place_tile fills
    one empty cell and nothing else. */
module Bookkeeping {
  import opened Vectors
  import opened Grid
  import opened GridLemmas

  // ---------------------------------------------------------------------------------
  // Board.score against Board.to_list

  /** The sum of the nonzero entries of a list of ints. */
  function RowSum(vs: seq<int>): int
    decreases |vs|
  {
    if vs == [] then 0 else RowSum(vs[..|vs| - 1]) + (if vs[|vs| - 1] != 0 then vs[|vs| - 1] else 0)
  }

  /** The sum of the nonzero entries of a list of lists of ints. */
  function ListSum(m: seq<seq<int>>): int
    decreases |m|
  {
    if m == [] then 0 else ListSum(m[..|m| - 1]) + RowSum(m[|m| - 1])
  }

  lemma {:induction false} RowTotalIsRowSum(row: seq<Cell>)
    ensures RowTotal(row, Value) == RowSum(RowValues(row))
    decreases |row|
  {
    if row != [] {
      var init := row[..|row| - 1];
      RowTotalIsRowSum(init);
      assert RowValues(row)[..|row| - 1] == RowValues(init);
    }
  }

  lemma {:induction false} TotalIsListSum(g: Matrix)
    ensures Total(g, Value) == ListSum(ToList(g))
    decreases |g|
  {
    if g != [] {
      var init := g[..|g| - 1];
      TotalIsListSum(init);
      RowTotalIsRowSum(g[|g| - 1]);
      assert ToList(g)[..|g| - 1] == ToList(init);
    }
  }

  /** On a 4 x 4 board score() is the sum of the nonzero entries of to_list(). */
  lemma ScoreMatchesToList(g: Matrix)
    requires Shaped(g, GRID_SIZE, GRID_SIZE)
    ensures Fits(g) && Score(g) == ListSum(ToList(g))
  {
    ScoreIsTotal(g);
    TotalIsListSum(g);
  }

  /** A single slide in a non-zero direction keeps the score of a 4 x 4 board. */
  lemma SlideKeepsScore(g: Matrix, p: Vec, dir: Vec)
    requires Shaped(g, GRID_SIZE, GRID_SIZE) && InBounds(g, p) && dir != ZERO
    ensures Shaped(Slide(g, p, dir), GRID_SIZE, GRID_SIZE)
    ensures Score(Slide(g, p, dir)) == Score(g)
  {
    SlideConserves(g, p, dir);
    ScoreIsTotal(g);
    ScoreIsTotal(Slide(g, p, dir));
  }

  // ---------------------------------------------------------------------------------
  // Board.to_list and Board.from_list

  /** Loading a value matrix of the board's own shape and exporting it again gives back
      the values: a 0 becomes an empty cell, which exports as 0. */
  lemma LoadThenExport(g: Matrix, values: seq<seq<int>>)
    requires |values| == |g| && forall r :: 0 <= r < |g| ==> |values[r]| == |g[r]|
    ensures Loadable(g, values) && ToList(FromList(g, values)) == values
  {
    var h := FromList(g, values);
    forall r | 0 <= r < |g|
      ensures ToList(h)[r] == values[r]
    {
      forall c | 0 <= c < |g[r]|
        ensures ToList(h)[r][c] == values[r][c]
      {
        assert h[r][c] == Decode(values[r][c]);
      }
    }
  }

  /** from_list(to_list()) reproduces the same to_list(). */
  lemma ExportLoadExport(g: Matrix)
    ensures Loadable(g, ToList(g)) && ToList(FromList(g, ToList(g))) == ToList(g)
  {
    LoadThenExport(g, ToList(g));
  }

  /** from_list(to_list()) rebuilds the board itself exactly when no tile has value 0:
      a tile of value 0 exports as 0 and comes back as an empty cell. */
  lemma ExportLoad(g: Matrix)
    ensures Loadable(g, ToList(g))
    ensures FromList(g, ToList(g)) == g <==>
      forall r, c :: 0 <= r < |g| && 0 <= c < |g[r]| ==> g[r][c] != Full(0)
  {
    var h := FromList(g, ToList(g));
    forall r, c | 0 <= r < |g| && 0 <= c < |g[r]|
      ensures h[r][c] == Decode(Value(g[r][c]))
    {
      assert ToList(g)[r][c] == Value(g[r][c]);
    }
    if forall r, c :: 0 <= r < |g| && 0 <= c < |g[r]| ==> g[r][c] != Full(0) {
      Extensional(h, g);
    } else {
      var r, c :| 0 <= r < |g| && 0 <= c < |g[r]| && g[r][c] == Full(0);
      assert h[r][c] == Empty;
    }
  }

  // ---------------------------------------------------------------------------------
  // Board._empty_positions and Board.has_empty

  /** Row-major order: the order in which the nested loops visit the cells. */
  predicate Before(p: Vec, q: Vec) {
    p.x < q.x || (p.x == q.x && p.y < q.y)
  }

  /** A list of positions in strictly increasing row-major order (so without repeats). */
  predicate Increasing(ps: seq<Vec>) {
    forall i, j :: 0 <= i < j < |ps| ==> Before(ps[i], ps[j])
  }

  /** Every empty cell of row `r` is among that row's empties. */
  lemma {:induction false} RowEmptiesComplete(row: seq<Cell>, r: int)
    ensures forall c :: 0 <= c < |row| && row[c].Empty? ==> Vec(r, c) in RowEmpties(row, r)
    decreases |row|
  {
    if row != [] {
      var init := row[..|row| - 1];
      RowEmptiesComplete(init, r);
      var es := RowEmpties(row, r);
      var pre := RowEmpties(init, r);
      assert es[..|pre|] == pre;
      forall c | 0 <= c < |row| && row[c].Empty?
        ensures Vec(r, c) in es
      {
        if c < |row| - 1 {
          assert init[c] == row[c];
          var k :| 0 <= k < |pre| && pre[k] == Vec(r, c);
          assert es[k] == Vec(r, c);
        } else {
          assert es[|es| - 1] == Vec(r, c);
        }
      }
    }
  }

  /** The empties of a row come left to right. */
  lemma {:induction false} RowEmptiesOrdered(row: seq<Cell>, r: int)
    ensures forall i, j :: 0 <= i < j < |RowEmpties(row, r)| ==>
      RowEmpties(row, r)[i].y < RowEmpties(row, r)[j].y
    decreases |row|
  {
    if row != [] {
      var init := row[..|row| - 1];
      RowEmptiesOrdered(init, r);
      RowEmptiesInRow(init, r);
      var es := RowEmpties(row, r);
      var pre := RowEmpties(init, r);
      assert es[..|pre|] == pre;
      forall i, j | 0 <= i < j < |es|
        ensures es[i].y < es[j].y
      {
        if j < |pre| {
          assert pre[i] == es[i] && pre[j] == es[j];
        } else {
          assert pre[i] == es[i];
        }
      }
    }
  }

  /** The empties of one row are its empty cells, left to right, all in row `r`. */
  lemma RowEmptiesExact(row: seq<Cell>, r: int)
    ensures forall c :: 0 <= c < |row| && row[c].Empty? ==> Vec(r, c) in RowEmpties(row, r)
    ensures forall p :: p in RowEmpties(row, r) ==> p.x == r && 0 <= p.y < |row| && row[p.y].Empty?
    ensures forall i, j :: 0 <= i < j < |RowEmpties(row, r)| ==>
      RowEmpties(row, r)[i].y < RowEmpties(row, r)[j].y
  {
    RowEmptiesComplete(row, r);
    RowEmptiesOrdered(row, r);
    RowEmptiesInRow(row, r);
  }

  /** The positions listed by _empty_positions are exactly the empty cells of the
      board, in the row-major order of its nested loops, each listed once. */
  lemma {:induction false} EmptyPositionsExact(g: Matrix)
    ensures forall p :: p in EmptyPositions(g) <==> InBounds(g, p) && Get(g, p).Empty?
    ensures Increasing(EmptyPositions(g))
    decreases |g|
  {
    if g != [] {
      var init := g[..|g| - 1];
      var last := |g| - 1;
      EmptyPositionsExact(init);
      RowEmptiesExact(g[last], last);
      var pre := EmptyPositions(init);
      var tail := RowEmpties(g[last], last);
      var es := EmptyPositions(g);
      assert es == pre + tail;
      forall p
        ensures p in es <==> InBounds(g, p) && Get(g, p).Empty?
      {
        if p in pre {
          assert g[p.x] == init[p.x];
        } else if InBounds(g, p) && Get(g, p).Empty? {
          if p.x < last {
            assert g[p.x] == init[p.x];
            assert InBounds(init, p);
          } else {
            assert p in tail;
          }
        }
      }
      forall i, j | 0 <= i < j < |es|
        ensures Before(es[i], es[j])
      {
        if j < |pre| {
          assert pre[i] == es[i] && pre[j] == es[j];
        } else if i < |pre| {
          assert pre[i] == es[i] && pre[i] in pre;
          assert tail[j - |pre|] == es[j] && es[j] in tail;
        } else {
          assert tail[i - |pre|] == es[i] && tail[j - |pre|] == es[j];
        }
      }
    }
  }

  /** has_empty() holds exactly when _empty_positions() is not empty. */
  lemma HasEmptyIffEmpties(g: Matrix)
    ensures HasEmpty(g) <==> |EmptyPositions(g)| > 0
  {
    EmptyPositionsExact(g);
    if HasEmpty(g) {
      var r, c :| 0 <= r < |g| && 0 <= c < |g[r]| && g[r][c].Empty?;
      assert Vec(r, c) in EmptyPositions(g);
    }
    if |EmptyPositions(g)| > 0 {
      var p := EmptyPositions(g)[0];
      assert p in EmptyPositions(g);
      assert 0 <= p.x < |g| && 0 <= p.y < |g[p.x]| && g[p.x][p.y].Empty?;
    }
  }

  /** A board whose every tile has a positive value, as the game's tiles do. */
  predicate PositiveTiles(g: Matrix) {
    forall r, c :: 0 <= r < |g| && 0 <= c < |g[r]| && g[r][c].Full? ==> g[r][c].value > 0
  }

  /** has_empty() holds when to_list() contains a 0, and, with all tile values positive,
      only then. */
  lemma HasEmptyIffZero(g: Matrix)
    ensures HasEmpty(g) ==> exists r, c :: 0 <= r < |g| && 0 <= c < |g[r]| && ToList(g)[r][c] == 0
    ensures PositiveTiles(g) ==>
      (HasEmpty(g) <==> exists r, c :: 0 <= r < |g| && 0 <= c < |g[r]| && ToList(g)[r][c] == 0)
  {
    if HasEmpty(g) {
      var r, c :| 0 <= r < |g| && 0 <= c < |g[r]| && g[r][c].Empty?;
      assert ToList(g)[r][c] == 0;
    }
    if PositiveTiles(g) && exists r, c :: 0 <= r < |g| && 0 <= c < |g[r]| && ToList(g)[r][c] == 0 {
      var r, c :| 0 <= r < |g| && 0 <= c < |g[r]| && ToList(g)[r][c] == 0;
      assert Value(g[r][c]) == 0;
    }
  }

  // ---------------------------------------------------------------------------------
  // Board.place_tile

  /** place_tile fills the chosen empty position with a tile of value v: that cell was
      empty and now holds v, every other cell is unchanged, the board has one tile more
      and its total value grows by v. */
  lemma PlaceTileEffect(g: Matrix, index: nat, v: int)
    requires index < |EmptyPositions(g)|
    ensures var p := EmptyPositions(g)[index];
      var h := PlaceTile(g, index, v);
      InBounds(g, p) && Get(g, p).Empty? && SameShape(g, h) &&
      Get(h, p) == Full(v) &&
      (forall q :: InBounds(g, q) && q != p ==> Get(h, q) == Get(g, q)) &&
      Count(h) == Count(g) + 1 && GridSum(h) == GridSum(g) + v
  {
    var p := EmptyPositions(g)[index];
    EmptyPositionsInBounds(g);
    SetTotal(g, p, Full(v), IsTile);
    SetTotal(g, p, Full(v), Value);
  }

  /** place_tile leaves one empty position fewer: the chosen one. */
  lemma PlaceTileEmpties(g: Matrix, index: nat, v: int)
    requires index < |EmptyPositions(g)|
    ensures var p := EmptyPositions(g)[index];
      forall q :: q in EmptyPositions(PlaceTile(g, index, v)) <==> q in EmptyPositions(g) && q != p
  {
    var p := EmptyPositions(g)[index];
    var h := PlaceTile(g, index, v);
    PlaceTileEffect(g, index, v);
    EmptyPositionsExact(g);
    EmptyPositionsExact(h);
  }
}
