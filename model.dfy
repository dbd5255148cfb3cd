/** Classes Tile and Board of model.py: the objects the game mutates in place. A Board
    keeps its tiles in a rows x cols array; the ghost field `cells` is the value the
    array denotes, and every method is specified by what it does to `cells` in terms
    of the functions of module Grid. */
module Model {
  import opened Vectors
  import Grid

  /** A numbered tile that remembers where on the board it sits. */
  class Tile {
    var row: int
    var col: int
    var value: int

    constructor (pos: Vec, value: int)
      ensures row == pos.x && col == pos.y && this.value == value
    {
      row := pos.x;
      col := pos.y;
      this.value := value;
    }

    /** Tile.__eq__: a tile compares equal to a number when its value is that number. */
    predicate Equals(v: int)
      reads this
    {
      value == v
    }

    /** Tile.move_to: only the recorded position changes. */
    method MoveTo(newPos: Vec)
      modifies this
      ensures row == newPos.x && col == newPos.y && value == old(value)
    {
      row := newPos.x;
      col := newPos.y;
    }

    /** Tile.merge: this tile absorbs the value of `other` (which may be this tile). */
    method Merge(other: Tile)
      modifies this
      ensures value == old(value) + old(other.value)
      ensures row == old(row) && col == old(col)
    {
      value := value + other.value;
    }
  }

  /** The game grid. */
  class Board {
    const rows: nat
    const cols: nat
    const tiles: array2<Tile?>
    /** The board as a value: cell (r, c) is Full(v) exactly when a tile of value v is
        at tiles[r, c]. */
    ghost var cells: Grid.Matrix
    /** Every tile this board has held. */
    ghost var Repr: set<Tile>

    /** The tile at (r, c), if any, is one of the board's tiles, records (r, c) as
        its position, and its value is what `cells` holds there. Since a tile records
        one position, no tile sits in two cells. */
    ghost predicate Agrees(r: int, c: int)
      requires 0 <= r < tiles.Length0 && 0 <= c < tiles.Length1
      requires Grid.Shaped(cells, tiles.Length0, tiles.Length1)
      reads this, tiles, Repr
    {
      var t := tiles[r, c];
      if t == null then cells[r][c] == Grid.Empty
      else t in Repr && t.row == r && t.col == c && cells[r][c] == Grid.Full(t.value)
    }

    ghost predicate Valid()
      reads this, tiles, Repr
    {
      tiles.Length0 == rows && tiles.Length1 == cols &&
      Grid.Shaped(cells, rows, cols) &&
      forall r, c :: 0 <= r < rows && 0 <= c < cols ==> Agrees(r, c)
    }

    /** Board.__init__: a rows x cols board without tiles, 4 x 4 by default. */
    constructor (rows: nat := 4, cols: nat := 4)
      ensures Valid() && this.rows == rows && this.cols == cols
      ensures cells == Grid.EmptyGrid(rows, cols) && Repr == {}
    {
      this.rows := rows;
      this.cols := cols;
      tiles := new Tile?[rows, cols]((r, c) => null);
      cells := Grid.EmptyGrid(rows, cols);
      Repr := {};
      new;
      forall r, c | 0 <= r < rows && 0 <= c < cols
        ensures Agrees(r, c)
      {
        assert Grid.Get(cells, Vec(r, c)) == Grid.Empty;
      }
    }

    /** Board.in_bounds. */
    predicate InBounds(pos: Vec) {
      0 <= pos.x < rows && 0 <= pos.y < cols
    }

    /** The positions in_bounds accepts are exactly the cells of the board. */
    lemma InBoundsIsOnBoard(pos: Vec)
      requires Valid()
      ensures InBounds(pos) <==> Grid.InBounds(cells, pos)
    {
    }

    /** Board.__getitem__: the tile at `pos`, or null for an empty cell. */
    function Get(pos: Vec): (t: Tile?)
      requires Valid() && InBounds(pos)
      reads this, tiles, Repr
      ensures t == null <==> Grid.Get(cells, pos).Empty?
      ensures t != null ==>
        t in Repr && t.row == pos.x && t.col == pos.y && Grid.Get(cells, pos) == Grid.Full(t.value)
    {
      assert Agrees(pos.x, pos.y);
      tiles[pos.x, pos.y]
    }

    /** Board.__setitem__: `tile` (which must record `pos` as its position, or be null)
        now fills cell `pos`. */
    method Set(pos: Vec, tile: Tile?)
      requires Valid() && InBounds(pos)
      requires tile != null ==> tile.row == pos.x && tile.col == pos.y
      modifies this, tiles
      ensures Valid() && tiles[pos.x, pos.y] == tile
      ensures Repr == old(Repr) + (if tile == null then {} else {tile})
      ensures cells == Grid.Set(old(cells), pos, if tile == null then Grid.Empty else Grid.Full(tile.value))
      ensures forall r, c :: 0 <= r < rows && 0 <= c < cols && Vec(r, c) != pos ==> tiles[r, c] == old(tiles[r, c])
    {
      tiles[pos.x, pos.y] := tile;
      if tile != null {
        Repr := Repr + {tile};
      }
      cells := Grid.Set(cells, pos, if tile == null then Grid.Empty else Grid.Full(tile.value));
      forall r, c | 0 <= r < rows && 0 <= c < cols
        ensures Agrees(r, c)
      {
        assert old(Agrees(r, c));
        if Vec(r, c) != pos {
          assert Grid.Get(cells, Vec(r, c)) == Grid.Get(old(cells), Vec(r, c));
        }
      }
    }

    /** Board.has_empty: scan the rows and stop at the first cell without a tile. */
    method HasEmpty() returns (found: bool)
      requires Valid()
      ensures found <==> Grid.HasEmpty(cells)
    {
      for r := 0 to rows
        invariant forall i, j :: 0 <= i < r && 0 <= j < cols ==> cells[i][j].Full?
      {
        for c := 0 to cols
          invariant forall j :: 0 <= j < c ==> cells[r][j].Full?
        {
          assert Agrees(r, c);
          if tiles[r, c] == null {
            assert cells[r][c].Empty?;
            return true;
          }
        }
      }
      return false;
    }

    /** Board._empty_positions: the positions without a tile, row by row. */
    method EmptyPositions() returns (empties: seq<Vec>)
      requires Valid()
      ensures empties == Grid.EmptyPositions(cells)
    {
      empties := [];
      for row := 0 to rows
        invariant empties == Grid.EmptyPositions(cells[..row])
      {
        for col := 0 to cols
          invariant empties == Grid.EmptyPositions(cells[..row]) + Grid.RowEmpties(cells[row][..col], row)
        {
          assert Agrees(row, col);
          assert cells[row][..col + 1][..col] == cells[row][..col];
          if tiles[row, col] == null {
            empties := empties + [Vec(row, col)];
          }
        }
        assert cells[row][..cols] == cells[row];
        assert cells[..row + 1][..row] == cells[..row];
      }
      assert cells[..rows] == cells;
    }

    /** Board.place_tile. The random choice among the empty positions is the
        parameter `index`, and random.random() is the parameter `draw`. */
    method PlaceTile(index: nat, value: Grid.Option, draw: real)
      requires Valid() && index < |Grid.EmptyPositions(cells)|
      modifies this, tiles
      ensures Valid() && old(Repr) <= Repr
      ensures cells == Grid.PlaceTile(old(cells), index, Grid.SpawnValue(value, draw))
      ensures forall r, c :: 0 <= r < rows && 0 <= c < cols ==>
        if Vec(r, c) == Grid.EmptyPositions(old(cells))[index] then fresh(tiles[r, c])
        else tiles[r, c] == old(tiles[r, c])
    {
      var empties := EmptyPositions();
      Grid.EmptyPositionsInBounds(cells);
      var choice := empties[index];
      var row, col := choice.x, choice.y;
      var v: int;
      if value.None? {
        if draw > 0.1 {
          v := 2;
        } else {
          v := 4;
        }
      } else {
        v := value.value;
      }
      var newTile := new Tile(Vec(row, col), v);
      tiles[row, col] := newTile;
      Repr := Repr + {newTile};
      cells := Grid.Set(cells, choice, Grid.Full(v));
      forall r, c | 0 <= r < rows && 0 <= c < cols
        ensures Agrees(r, c)
      {
        assert old(Agrees(r, c));
        if Vec(r, c) != choice {
          assert Grid.Get(cells, Vec(r, c)) == Grid.Get(old(cells), Vec(r, c));
        }
      }
    }

    /** Board.score: the sum of the tile values on rows and columns 0..GRID_SIZE-1. */
    method Score() returns (finalScore: int)
      requires Valid() && rows >= Grid.GRID_SIZE && cols >= Grid.GRID_SIZE
      ensures finalScore == Grid.Score(cells)
    {
      ghost var block := Grid.Block(cells);
      finalScore := 0;
      for r := 0 to Grid.GRID_SIZE
        invariant finalScore == Grid.Total(block[..r], Grid.Value)
      {
        for c := 0 to Grid.GRID_SIZE
          invariant finalScore == Grid.Total(block[..r], Grid.Value) + Grid.RowTotal(block[r][..c], Grid.Value)
        {
          assert Agrees(r, c);
          assert block[r][..c + 1][..c] == block[r][..c];
          if tiles[r, c] != null {
            finalScore := finalScore + tiles[r, c].value;
          }
        }
        assert block[r][..Grid.GRID_SIZE] == block[r];
        assert block[..r + 1][..r] == block[..r];
      }
      assert block[..Grid.GRID_SIZE] == block;
    }

    /** Board.to_list: the board as rows of tile values, 0 for an empty cell. */
    method ToList() returns (result: seq<seq<int>>)
      requires Valid()
      ensures result == Grid.ToList(cells)
    {
      result := [];
      for r := 0 to rows
        invariant result == Grid.ToList(cells)[..r]
      {
        var rowValues := [];
        for c := 0 to cols
          invariant rowValues == Grid.RowValues(cells[r])[..c]
        {
          assert Agrees(r, c);
          if tiles[r, c] == null {
            rowValues := rowValues + [0];
          } else {
            rowValues := rowValues + [tiles[r, c].value];
          }
        }
        assert rowValues == Grid.ToList(cells)[r];
        assert Grid.ToList(cells)[..r + 1] == Grid.ToList(cells)[..r] + [rowValues];
        result := result + [rowValues];
      }
    }

    /** Board.from_list: every cell that `values` covers gets a fresh tile of that value,
        or is cleared where the value is 0; the other cells are kept. */
    method FromList(values: seq<seq<int>>)
      requires Valid() && Grid.Loadable(cells, values)
      modifies this, tiles
      ensures Valid() && old(Repr) <= Repr
      ensures cells == Grid.FromList(old(cells), values)
      ensures forall r, c :: 0 <= r < rows && 0 <= c < cols ==>
        if r < |values| && c < |values[r]| then values[r][c] != 0 ==> fresh(tiles[r, c])
        else tiles[r, c] == old(tiles[r, c])
    {
      ghost var start := cells;
      for r := 0 to |values|
        invariant Valid() && old(Repr) <= Repr
        invariant forall i, j :: 0 <= i < rows && 0 <= j < cols ==>
          cells[i][j] == if i < r && j < |values[i]| then Grid.Decode(values[i][j]) else start[i][j]
        invariant forall i, j :: 0 <= i < rows && 0 <= j < cols ==>
          if i < r && j < |values[i]| then values[i][j] != 0 ==> fresh(tiles[i, j])
          else tiles[i, j] == old(tiles[i, j])
      {
        for c := 0 to |values[r]|
          invariant Valid() && old(Repr) <= Repr
          invariant forall i, j :: 0 <= i < rows && 0 <= j < cols ==>
            cells[i][j] ==
              if (i < r && j < |values[i]|) || (i == r && j < c) then Grid.Decode(values[i][j])
              else start[i][j]
          invariant forall i, j :: 0 <= i < rows && 0 <= j < cols ==>
            if (i < r && j < |values[i]|) || (i == r && j < c) then values[i][j] != 0 ==> fresh(tiles[i, j])
            else tiles[i, j] == old(tiles[i, j])
        {
          if values[r][c] == 0 {
            Set(Vec(r, c), null);
          } else {
            var newTile := new Tile(Vec(r, c), values[r][c]);
            Set(Vec(r, c), newTile);
          }
        }
      }
      Grid.Extensional(cells, Grid.FromList(start, values));
    }

    /** Board._move_tile: the tile at `from` moves to `to` and `from` is cleared. */
    method MoveTile(from: Vec, to: Vec)
      requires Valid() && InBounds(from) && InBounds(to) && tiles[from.x, from.y] != null
      modifies this, tiles, tiles[from.x, from.y]
      ensures Valid() && Repr == old(Repr)
      ensures cells == Grid.Move(old(cells), from, to)
      ensures from != to ==> tiles[to.x, to.y] == old(tiles[from.x, from.y])
      ensures tiles[from.x, from.y] == null
      ensures forall r, c :: 0 <= r < rows && 0 <= c < cols && Vec(r, c) != from && Vec(r, c) != to ==>
        tiles[r, c] == old(tiles[r, c])
    {
      var tile := tiles[from.x, from.y];
      assert old(Agrees(from.x, from.y));
      tile.MoveTo(to);
      tiles[to.x, to.y] := tile;
      tiles[from.x, from.y] := null;
      cells := Grid.Move(cells, from, to);
      forall r, c | 0 <= r < rows && 0 <= c < cols
        ensures Agrees(r, c)
      {
        assert old(Agrees(r, c));
        if Vec(r, c) != from && Vec(r, c) != to {
          assert Grid.Get(cells, Vec(r, c)) == Grid.Get(old(cells), Vec(r, c));
        }
      }
    }

    /** The merging branch of Board.slide: the tile at `from` absorbs the equal tile at
        `to` and then moves onto its cell. */
    method MergeInto(from: Vec, to: Vec)
      requires Valid() && InBounds(from) && InBounds(to)
      requires Get(from) != null && Get(to) != null && Get(from).Equals(Get(to).value)
      modifies this, tiles, tiles[from.x, from.y]
      ensures Valid() && Repr == old(Repr)
      ensures cells == Grid.Move(
        Grid.Set(old(cells), from, Grid.Full(Grid.Get(old(cells), from).value + Grid.Get(old(cells), to).value)),
        from, to)
      ensures from != to ==> tiles[to.x, to.y] == old(tiles[from.x, from.y])
      ensures tiles[from.x, from.y] == null
      ensures forall r, c :: 0 <= r < rows && 0 <= c < cols && Vec(r, c) != from && Vec(r, c) != to ==>
        tiles[r, c] == old(tiles[r, c])
    {
      var here, there := Get(from), Get(to);
      here.Merge(there);
      cells := Grid.Set(cells, from, Grid.Full(here.value));
      forall r, c | 0 <= r < rows && 0 <= c < cols
        ensures Agrees(r, c)
      {
        assert old(Agrees(r, c));
        if Vec(r, c) != from {
          assert Grid.Get(cells, Vec(r, c)) == Grid.Get(old(cells), Vec(r, c));
        }
      }
      MoveTile(from, to);
    }

    /** One round of the loop of Board.slide for the tile at `p`: step onto an empty
        neighbour and go on, or merge into an equal neighbour, or stop at the edge or at
        a different tile. `trip` is what Grid.Travel says the rest of the slide does. */
    method SlideStep(p: Vec, dir: Vec, ghost trip: Grid.Trip) returns (next: Vec, moving: bool)
      requires Valid() && InBounds(p) && tiles[p.x, p.y] != null
      requires Grid.InBounds(cells, p) && Grid.Get(cells, p).Full?
      requires Grid.Travel(cells, p, dir) == trip
      modifies this, tiles, tiles[p.x, p.y]
      ensures Valid() && Repr == old(Repr) && InBounds(next)
      ensures moving ==> next == p.Add(dir) && cells == Grid.Move(old(cells), p, next)
      ensures moving ==> tiles[next.x, next.y] == old(tiles[p.x, p.y])
      ensures moving ==> Grid.InBounds(cells, next) && Grid.Get(cells, next).Full?
      ensures moving ==> Grid.Travel(cells, next, dir) == trip
      ensures moving ==> Grid.Reach(cells, next, dir) < old(Grid.Reach(cells, p, dir))
      ensures !moving ==> cells == trip.grid
      ensures !moving && dir != ZERO ==> tiles[trip.dest.x, trip.dest.y] == old(tiles[p.x, p.y])
      ensures !moving ==> next == trip.dest
      ensures moving ==> old(tiles[next.x, next.y]) == null
      ensures next != p ==> tiles[p.x, p.y] == null
      ensures forall r, c :: 0 <= r < rows && 0 <= c < cols && Vec(r, c) != p && Vec(r, c) != next ==>
        tiles[r, c] == old(tiles[r, c])
    {
      assert Agrees(p.x, p.y);
      next := p.Add(dir);
      if !InBounds(next) {
        assert Grid.Travel(cells, p, dir) == Grid.Trip(cells, p, false);
        return p, false;
      }
      if Get(next) == null {
        Grid.ReachDecreases(cells, p, dir);
        MoveTile(p, next);
        moving := true;
      } else if Get(p).Equals(Get(next).value) {
        ghost var v := Grid.Get(cells, p).value;
        NonZeroStepMoves(p, dir);
        assert Grid.Get(cells, next) == Grid.Full(v);
        assert trip == Grid.Trip(Grid.Move(Grid.Set(cells, p, Grid.Full(v + v)), p, next), next, true);
        MergeInto(p, next);
        moving := false;
      } else {
        assert Grid.Travel(cells, p, dir) == Grid.Trip(cells, p, false);
        return p, false;
      }
    }

    /** Board.slide: the tile at `pos`, if any, travels along `dir` as Grid.Travel says,
        and it is the same tile object that comes to rest at the end of the trip. */
    method Slide(pos: Vec, dir: Vec)
      requires Valid() && InBounds(pos)
      modifies this, tiles, tiles[pos.x, pos.y]
      ensures Valid() && Repr == old(Repr)
      ensures cells == Grid.Slide(old(cells), pos, dir)
      ensures Grid.InBounds(old(cells), pos) && Grid.Get(old(cells), pos).Full? && dir != ZERO ==>
        var dest := Grid.Travel(old(cells), pos, dir).dest;
        tiles[dest.x, dest.y] == old(tiles[pos.x, pos.y])
      ensures Grid.InBounds(old(cells), pos) && Grid.Get(old(cells), pos).Empty? ==>
        forall r, c :: 0 <= r < rows && 0 <= c < cols ==> tiles[r, c] == old(tiles[r, c])
      ensures Grid.InBounds(old(cells), pos) && Grid.Get(old(cells), pos).Full? ==>
        var dest := Grid.Travel(old(cells), pos, dir).dest;
        forall r, c :: 0 <= r < rows && 0 <= c < cols && Vec(r, c) != pos && Vec(r, c) != dest ==>
          tiles[r, c] == old(tiles[r, c])
    {
      if Get(pos) == null {
        return;
      }
      ghost var mover := Get(pos);
      ghost var trip := Grid.Travel(cells, pos, dir);
      assert Grid.Slide(cells, pos, dir) == trip.grid;
      var p, moving := pos, true;
      while moving
        invariant Valid() && Repr == old(Repr) && InBounds(p)
        invariant moving ==> tiles[p.x, p.y] == mover && Grid.InBounds(cells, p)
        invariant moving ==> Grid.Get(cells, p).Full? && Grid.Travel(cells, p, dir) == trip
        invariant !moving ==> cells == trip.grid
        invariant !moving && dir != ZERO ==> tiles[trip.dest.x, trip.dest.y] == mover
        invariant !moving ==> p == trip.dest
        invariant moving && p != pos ==> old(tiles[p.x, p.y]) == null
        invariant forall r, c :: 0 <= r < rows && 0 <= c < cols && Vec(r, c) != pos && Vec(r, c) != p ==>
          tiles[r, c] == old(tiles[r, c])
        decreases moving, if moving then Grid.Reach(cells, p, dir) else 0
      {
        p, moving := SlideStep(p, dir, trip);
      }
    }

    /** One call of slide made by a directional move: round `i` of outer iteration `n`
        of move `d`, sliding `pos` by `dir`. */
    method SweepSlide(ghost start: Grid.Matrix, d: Grid.Direction, n: nat, i: nat, pos: Vec, dir: Vec)
      requires Valid() && Grid.Fits(start) && n < Grid.GRID_SIZE && i < Grid.GRID_SIZE
      requires pos == Grid.Lane(d, n)[i] && dir == Grid.Delta(d)
      requires cells == Grid.Swept(start, d, n, i)
      modifies this, tiles, Repr
      ensures Valid() && Repr == old(Repr)
      ensures cells == Grid.Swept(start, d, n, i + 1)
    {
      Grid.SweptNext(start, d, n, i);
      assert Agrees(pos.x, pos.y);
      Slide(pos, dir);
    }

    /** Board.right: each row, columns from the right edge inwards. */
    method Right()
      requires Valid() && rows >= Grid.GRID_SIZE && cols >= Grid.GRID_SIZE
      modifies this, tiles, Repr
      ensures Valid() && Repr == old(Repr)
      ensures cells == Grid.Sweep(old(cells), Grid.Right)
    {
      ghost var start := cells;
      Grid.SweptEnds(start, Grid.Right);
      for r := 0 to Grid.GRID_SIZE
        invariant Valid() && Repr == old(Repr)
        invariant cells == Grid.Swept(start, Grid.Right, r, 0)
      {
        var c: int := Grid.GRID_SIZE;
        for i := 0 to Grid.GRID_SIZE
          invariant Valid() && Repr == old(Repr) && c == Grid.GRID_SIZE - i
          invariant cells == Grid.Swept(start, Grid.Right, r, i)
        {
          c := c - 1;
          Grid.LaneAt(Grid.Right, r, i);
          SweepSlide(start, Grid.Right, r, i, Vec(r, c), Vec(0, 1));
        }
        Grid.SweptRow(start, Grid.Right, r);
      }
    }

    /** Board.left: each row, columns from the left edge inwards. */
    method Left()
      requires Valid() && rows >= Grid.GRID_SIZE && cols >= Grid.GRID_SIZE
      modifies this, tiles, Repr
      ensures Valid() && Repr == old(Repr)
      ensures cells == Grid.Sweep(old(cells), Grid.Left)
    {
      ghost var start := cells;
      Grid.SweptEnds(start, Grid.Left);
      for r := 0 to Grid.GRID_SIZE
        invariant Valid() && Repr == old(Repr)
        invariant cells == Grid.Swept(start, Grid.Left, r, 0)
      {
        for c := 0 to Grid.GRID_SIZE
          invariant Valid() && Repr == old(Repr)
          invariant cells == Grid.Swept(start, Grid.Left, r, c)
        {
          Grid.LaneAt(Grid.Left, r, c);
          SweepSlide(start, Grid.Left, r, c, Vec(r, c), Vec(0, -1));
        }
        Grid.SweptRow(start, Grid.Left, r);
      }
    }

    /** Board.up: row by row from the top, each row from the left. */
    method Up()
      requires Valid() && rows >= Grid.GRID_SIZE && cols >= Grid.GRID_SIZE
      modifies this, tiles, Repr
      ensures Valid() && Repr == old(Repr)
      ensures cells == Grid.Sweep(old(cells), Grid.Up)
    {
      ghost var start := cells;
      Grid.SweptEnds(start, Grid.Up);
      for r := 0 to Grid.GRID_SIZE
        invariant Valid() && Repr == old(Repr)
        invariant cells == Grid.Swept(start, Grid.Up, r, 0)
      {
        for c := 0 to Grid.GRID_SIZE
          invariant Valid() && Repr == old(Repr)
          invariant cells == Grid.Swept(start, Grid.Up, r, c)
        {
          Grid.LaneAt(Grid.Up, r, c);
          SweepSlide(start, Grid.Up, r, c, Vec(r, c), Vec(-1, 0));
        }
        Grid.SweptRow(start, Grid.Up, r);
      }
    }

    /** Board.down: each column, rows from the bottom edge upwards. */
    method Down()
      requires Valid() && rows >= Grid.GRID_SIZE && cols >= Grid.GRID_SIZE
      modifies this, tiles, Repr
      ensures Valid() && Repr == old(Repr)
      ensures cells == Grid.Sweep(old(cells), Grid.Down)
    {
      ghost var start := cells;
      Grid.SweptEnds(start, Grid.Down);
      for c := 0 to Grid.GRID_SIZE
        invariant Valid() && Repr == old(Repr)
        invariant cells == Grid.Swept(start, Grid.Down, c, 0)
      {
        var r: int := Grid.GRID_SIZE;
        for i := 0 to Grid.GRID_SIZE
          invariant Valid() && Repr == old(Repr) && r == Grid.GRID_SIZE - i
          invariant cells == Grid.Swept(start, Grid.Down, c, i)
        {
          r := r - 1;
          Grid.LaneAt(Grid.Down, c, i);
          SweepSlide(start, Grid.Down, c, i, Vec(r, c), Vec(1, 0));
        }
        Grid.SweptRow(start, Grid.Down, c);
      }
    }
  }
}
