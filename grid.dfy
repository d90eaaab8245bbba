/**
 * The `Grid` class of src/grid.ts: a `size` by `size` array of optional tiles, indexed
 * `cells[x][y]`, with bounds and occupancy queries, insertion and removal of tiles, and
 * the enumeration of empty cells.
 */
module Grids {
  import opened Wrappers
  import opened Tiles
  import opened Rules

  /** `GridState`: the serialised form of a grid. */
  datatype GridState = GridState(size: int, cellState: seq<seq<Option<TileState>>>)

  /** What the rules see of one cell. */
  function CellOf(t: Tile?): (c: Cell)
    reads (if t == null then {} else {t})`mergedFrom
    ensures c == Empty <==> t == null
  {
    if t == null then Empty else Occupied(t.value, t.mergedFrom.Some?)
  }

  /** Position (x, y) comes before (x', y') in the order `eachCell` visits cells. */
  predicate CellOrder(p: Position, q: Position) {
    p.x < q.x || (p.x == q.x && p.y < q.y)
  }

  class Grid {
    const size: nat
    var cells: seq<seq<Tile?>>

    /**
     * The tiles the grid holds, and possibly some it held earlier: the footprint the
     * grid's methods and the game's methods may change.
     */
    ghost var tiles: set<Tile>

    /** There are `size` rows of `size` cells, and every tile in them is in `tiles`. */
    ghost predicate Shaped()
      reads this
    {
      |cells| == size && (forall x :: 0 <= x < size ==> |cells[x]| == size) &&
      forall x, y :: 0 <= x < size && 0 <= y < size && cells[x][y] != null ==> cells[x][y] in tiles
    }

    /** The board mirrors the cells, and every tile's own coordinates are those of its cell. */
    ghost predicate Valid()
      reads this, tiles
    {
      Mirrors() &&
      forall x, y :: 0 <= x < size && 0 <= y < size && cells[x][y] != null ==>
        cells[x][y].x == x && cells[x][y].y == y
    }

    /**
     * The board as the rules see it: a ghost copy of the cells that every method
     * writing a cell keeps in step with them.
     */
    ghost var board: Board

    /** The grid is shaped, and `board` shows what each cell holds. */
    ghost predicate Mirrors()
      reads this, tiles`mergedFrom
    {
      Shaped() && IsBoard(board, size) &&
      forall x, y :: 0 <= x < size && 0 <= y < size ==> board[x][y] == CellOf(cells[x][y])
    }

    /** Each cell of the board shows what the grid holds there. */
    lemma ViewCells()
      requires Mirrors()
      ensures forall p {:trigger At(board, size, p)} :: InBounds(size, p) ==> At(board, size, p) == CellOf(cells[p.x][p.y])
    {
    }

    /** The board's cell at p shows what the grid holds there. */
    lemma ViewAt(p: Position)
      requires Mirrors() && InBounds(size, p)
      ensures At(board, size, p) == CellOf(cells[p.x][p.y])
    {
    }

    /** A tile whose own cell does not hold it is not on a valid grid and can leave `tiles`. */
    ghost method Release(t: Tile)
      requires Valid()
      requires InBounds(size, Position(t.x, t.y)) ==> cells[t.x][t.y] != t
      modifies this`tiles
      ensures tiles == old(tiles) - {t}
      ensures Valid()
    {
      tiles := tiles - {t};
    }

    /**
     * `new Grid(size)`, or `new Grid(size, previousState)`, which restores the cells
     * from the state with the corrected `fromState` (`FromStateRows`).
     */
    constructor (size: nat, previousState: Option<seq<seq<Option<TileState>>>>)
      requires previousState.Some? ==> StateCovers(previousState.value, size)
      ensures this.size == size
      ensures previousState.None? ==> Valid() && board == EmptyBoard(size) && tiles == {}
      ensures previousState.Some? ==> Mirrors() && board == StateBoard(previousState.value, size)
      ensures previousState.Some? ==> forall x, y :: 0 <= x < size && 0 <= y < size ==>
        Restores(cells[x][y], StateAt(previousState.value, x, y))
      ensures previousState.Some? && PositionsMatch(previousState.value, size) ==> Valid()
      ensures fresh(tiles)
    {
      this.size := size;
      new;
      if previousState.Some? {
        var c, made := FromStateRows(previousState.value);
        cells := c;
        tiles := made;
        board := StateBoard(previousState.value, size);
      } else {
        cells := EmptyRows();
        tiles := {};
        board := EmptyBoard(size);
      }
    }

    /** `empty()`: `size` rows of `size` nulls. */
    method EmptyRows() returns (c: seq<seq<Tile?>>)
      ensures |c| == size
      ensures forall x :: 0 <= x < size ==> |c[x]| == size
      ensures forall x, y :: 0 <= x < size && 0 <= y < size ==> c[x][y] == null
    {
      c := [];
      for x := 0 to size
        invariant |c| == x
        invariant forall i :: 0 <= i < x ==> |c[i]| == size && forall y :: 0 <= y < size ==> c[i][y] == null
      {
        var row: seq<Tile?> := [];
        for y := 0 to size
          invariant |row| == y && forall k :: 0 <= k < y ==> row[k] == null
        {
          row := row + [null];
        }
        c := c + [row];
      }
    }

    /**
     * `fromState(state)` as written: each row is built and then dropped, because it is
     * never pushed onto `cells`, so the result is always empty.
     */
    method FromState(state: seq<seq<Option<TileState>>>) returns (c: seq<seq<Tile?>>)
      requires StateCovers(state, size)
      ensures c == []
    {
      c := [];
      for x := 0 to size
        invariant c == []
      {
        var row: seq<Tile?> := [];
        for y := 0 to size
          invariant |row| == y
        {
          var tile := StateAt(state, x, y);
          if tile.Some? {
            var t := new Tile(tile.value.position, tile.value.value);
            row := row + [t];
          } else {
            row := row + [null];
          }
        }
      }
    }

    /**
     * `fromState(state)` as evidently intended: each row is pushed onto the result, so
     * cell (x, y) holds a new tile made from the state's entry there, or null.
     */
    method FromStateRows(state: seq<seq<Option<TileState>>>) returns (c: seq<seq<Tile?>>, ghost made: set<Tile>)
      requires StateCovers(state, size)
      ensures |c| == size
      ensures forall x :: 0 <= x < size ==> |c[x]| == size
      ensures forall x, y :: 0 <= x < size && 0 <= y < size ==> Restores(c[x][y], StateAt(state, x, y))
      ensures forall x, y :: 0 <= x < size && 0 <= y < size && c[x][y] != null ==> c[x][y] in made
      ensures fresh(made)
    {
      c := [];
      made := {};
      for x := 0 to size
        invariant |c| == x && fresh(made)
        invariant forall i :: 0 <= i < x ==> |c[i]| == size
        invariant forall i, y :: 0 <= i < x && 0 <= y < size ==>
          Restores(c[i][y], StateAt(state, i, y)) && (c[i][y] != null ==> c[i][y] in made)
      {
        var row: seq<Tile?> := [];
        for y := 0 to size
          invariant |row| == y && fresh(made)
          invariant forall i, k :: 0 <= i < x && 0 <= k < size ==>
            Restores(c[i][k], StateAt(state, i, k)) && (c[i][k] != null ==> c[i][k] in made)
          invariant forall k :: 0 <= k < y ==>
            Restores(row[k], StateAt(state, x, k)) && (row[k] != null ==> row[k] in made)
        {
          var tile := StateAt(state, x, y);
          if tile.Some? {
            var t := new Tile(tile.value.position, tile.value.value);
            made := made + {t};
            row := row + [t];
          } else {
            row := row + [null];
          }
        }
        c := c + [row];
      }
    }

    /** `withinBounds`. */
    predicate WithinBounds(position: Position)
    {
      InBounds(size, position)
    }

    /** `cellContent`: the tile at an in-bounds position, null for any other position. */
    function CellContent(cell: Position): (t: Tile?)
      reads this
      requires Shaped()
      ensures !InBounds(size, cell) ==> t == null
      ensures InBounds(size, cell) ==> t == cells[cell.x][cell.y]
      ensures t != null ==> t in tiles
    {
      if WithinBounds(cell) then cells[cell.x][cell.y] else null
    }

    /** `cellOccupied`: there is a tile at the position. */
    predicate CellOccupied(cell: Position)
      reads this
      requires Shaped()
    {
      CellContent(cell) != null
    }

    /**
     * `cellAvailable`: no tile at the position. Every position off the board counts as
     * available.
     */
    predicate CellAvailable(cell: Position)
      reads this
      requires Shaped()
    {
      !CellOccupied(cell)
    }

    /** Off the board every cell is available; on it, exactly the empty ones are. */
    lemma CellAvailableMeaning(cell: Position)
      requires Mirrors()
      ensures !InBounds(size, cell) ==> CellAvailable(cell)
      ensures InBounds(size, cell) ==> (CellAvailable(cell) <==> At(board, size, cell) == Empty)
      ensures CellOccupied(cell) <==> InBounds(size, cell) && At(board, size, cell).Occupied?
    {
      ViewCells();
    }

    /** The empty cells among the first x rows and the first y cells of row x. */
    function EmptyCellsBefore(x: nat, y: nat): seq<Position>
      reads this
      requires Shaped() && x <= size && y <= size && (x == size ==> y == 0)
      decreases x, y
    {
      if y == 0 then
        if x == 0 then [] else EmptyCellsBefore(x - 1, size)
      else
        EmptyCellsBefore(x, y - 1) + if cells[x][y - 1] == null then [Position(x, y - 1)] else []
    }

    /** What `availableCells()` returns: every empty cell, rows first. */
    function EmptyCells(): seq<Position>
      reads this
      requires Shaped()
    {
      EmptyCellsBefore(size, 0)
    }

    /** The empty cells found before (x, y) are exactly the empty cells that precede (x, y). */
    lemma {:induction false} EmptyCellsBeforeMembers(x: nat, y: nat)
      requires Shaped() && x <= size && y <= size && (x == size ==> y == 0)
      ensures forall p :: p in EmptyCellsBefore(x, y) <==>
        InBounds(size, p) && cells[p.x][p.y] == null && CellOrder(p, Position(x, y))
      decreases x, y
    {
      if y == 0 {
        if x > 0 {
          EmptyCellsBeforeMembers(x - 1, size);
        }
      } else {
        EmptyCellsBeforeMembers(x, y - 1);
      }
    }

    /** The empty cells found before (x, y) are listed in visiting order, without repetition. */
    lemma {:induction false} EmptyCellsBeforeOrdered(x: nat, y: nat)
      requires Shaped() && x <= size && y <= size && (x == size ==> y == 0)
      ensures forall a, b :: 0 <= a < b < |EmptyCellsBefore(x, y)| ==>
        CellOrder(EmptyCellsBefore(x, y)[a], EmptyCellsBefore(x, y)[b])
      decreases x, y
    {
      if y == 0 {
        if x > 0 {
          EmptyCellsBeforeOrdered(x - 1, size);
        }
      } else {
        EmptyCellsBeforeOrdered(x, y - 1);
        EmptyCellsBeforeMembers(x, y - 1);
        var earlier := EmptyCellsBefore(x, y - 1);
        forall a | 0 <= a < |earlier|
          ensures CellOrder(earlier[a], Position(x, y - 1))
        {
          assert earlier[a] in earlier;
        }
      }
    }

    /** `availableCells()` lists exactly the empty cells, each once, x first and then y. */
    lemma EmptyCellsSpec()
      requires Mirrors()
      ensures forall p :: p in EmptyCells() <==> InBounds(size, p) && At(board, size, p) == Empty
      ensures forall a, b :: 0 <= a < b < |EmptyCells()| ==> CellOrder(EmptyCells()[a], EmptyCells()[b])
    {
      EmptyCellsBeforeMembers(size, 0);
      EmptyCellsBeforeOrdered(size, 0);
      ViewCells();
    }

    /** `availableCells()`: the nested loop of `eachCell`, collecting the empty cells. */
    method AvailableCells() returns (r: seq<Position>)
      requires Shaped()
      ensures r == EmptyCells()
    {
      r := [];
      for x := 0 to size
        invariant r == EmptyCellsBefore(x, 0)
      {
        for y := 0 to size
          invariant r == EmptyCellsBefore(x, y)
        {
          if cells[x][y] == null {
            r := r + [Position(x, y)];
          }
        }
      }
    }

    /** `cellsAvailable()`: `availableCells()` is not empty. */
    predicate CellsAvailable()
      reads this
      requires Shaped()
    {
      |EmptyCells()| != 0
    }

    /** Cells are available exactly when the board has an empty cell. */
    lemma CellsAvailableMeaning()
      requires Mirrors()
      ensures CellsAvailable() <==> HasEmpty(board, size)
    {
      EmptyCellsSpec();
      ViewCells();
      if HasEmpty(board, size) {
        var p :| InBounds(size, p) && At(board, size, p) == Empty;
        assert p in EmptyCells();
      }
      if CellsAvailable() {
        assert EmptyCells()[0] in EmptyCells();
      }
    }

    /**
     * `randomAvailableCell()`: one of the available cells, chosen freely (the source
     * draws the index with `Math.random`), or nothing when there is none.
     */
    method RandomAvailableCell() returns (r: Option<Position>)
      requires Mirrors()
      ensures r.Some? <==> |EmptyCells()| != 0
      ensures r.Some? ==> r.value in EmptyCells()
      ensures r.Some? ==> InBounds(size, r.value) && At(board, size, r.value) == Empty
    {
      var available := AvailableCells();
      EmptyCellsSpec();
      if |available| != 0 {
        var index :| 0 <= index < |available|;
        r := Some(available[index]);
        assert r.value in EmptyCells();
      } else {
        r := None;
      }
    }

    /** `insertTile`: writes the tile into its own cell, overwriting any occupant. */
    method InsertTile(tile: Tile)
      requires Mirrors() && InBounds(size, Position(tile.x, tile.y))
      modifies this
      ensures cells == old(cells)[tile.x := old(cells)[tile.x][tile.y := tile]]
      ensures Mirrors()
      ensures old(Valid()) ==> Valid()
      ensures board == Set(old(board), size, Position(tile.x, tile.y), CellOf(tile))
      ensures tiles == old(tiles) + {tile}
    {
      cells := cells[tile.x := cells[tile.x][tile.y := tile]];
      board := Set(board, size, Position(tile.x, tile.y), CellOf(tile));
      tiles := tiles + {tile};
    }

    /** `removeTile`: clears the tile's own cell, whatever it holds. */
    method RemoveTile(tile: Tile)
      requires Mirrors() && InBounds(size, Position(tile.x, tile.y))
      modifies this
      ensures cells == old(cells)[tile.x := old(cells)[tile.x][tile.y := null]]
      ensures Mirrors()
      ensures old(Valid()) ==> Valid()
      ensures board == Set(old(board), size, Position(tile.x, tile.y), Empty)
      ensures tiles == old(tiles)
    {
      cells := cells[tile.x := cells[tile.x][tile.y := null]];
      board := Set(board, size, Position(tile.x, tile.y), Empty);
    }

    /**
     * `serialize()` as written: it walks every cell and serialises its tile, but never
     * pushes a row, so the cell state it returns is always empty.
     */
    method Serialize() returns (s: GridState)
      requires Shaped()
      ensures s == GridState(size, [])
    {
      var rows: seq<seq<Option<TileState>>> := [];
      for x := 0 to size
        invariant rows == []
      {
        var row: seq<Option<TileState>> := [];
        for y := 0 to size
          invariant |row| == y
        {
          row := row + [if cells[x][y] != null then Some(cells[x][y].Serialize()) else None];
        }
      }
      s := GridState(size, rows);
    }

    /**
     * `serialize()` as evidently intended: each row is pushed, so the cell state holds
     * the serialised tile of every occupied cell and nothing for an empty one.
     */
    method SerializeRows() returns (s: GridState)
      requires Shaped()
      ensures s.size == size && |s.cellState| == size
      ensures forall x :: 0 <= x < size ==> |s.cellState[x]| == size
      ensures forall x, y :: 0 <= x < size && 0 <= y < size ==>
        s.cellState[x][y] == if cells[x][y] == null then None else Some(cells[x][y].Serialize())
    {
      var rows: seq<seq<Option<TileState>>> := [];
      for x := 0 to size
        invariant |rows| == x
        invariant forall i :: 0 <= i < x ==> |rows[i]| == size
        invariant forall i, y :: 0 <= i < x && 0 <= y < size ==>
          rows[i][y] == if cells[i][y] == null then None else Some(cells[i][y].Serialize())
      {
        var row: seq<Option<TileState>> := [];
        for y := 0 to size
          invariant |row| == y
          invariant forall k :: 0 <= k < y ==>
            row[k] == if cells[x][k] == null then None else Some(cells[x][k].Serialize())
        {
          row := row + [if cells[x][y] != null then Some(cells[x][y].Serialize()) else None];
        }
        rows := rows + [row];
      }
      s := GridState(size, rows);
    }
  }

  /**
   * `fromState` reads the row `state[x]` for every x below `size`: a state with fewer
   * rows makes it throw.
   */
  predicate StateCovers(state: seq<seq<Option<TileState>>>, size: nat) {
    |state| >= size
  }

  /** The entry `state[x][y]`; past the end of a short row it is `undefined`, read as no tile. */
  function StateAt(state: seq<seq<Option<TileState>>>, x: nat, y: nat): Option<TileState>
    requires x < |state|
  {
    if y < |state[x]| then state[x][y] else None
  }

  /** A saved entry as a fresh tile holds it: a value of 0 becomes 2 (`value || 2`). */
  function Normalized(e: Option<TileState>): Option<TileState> {
    if e.None? then None else Some(TileState(e.value.position, InitialValue(e.value.value)))
  }

  /** The entry is empty or saves a value other than 0. */
  predicate NonZero(e: Option<TileState>) {
    e.None? || e.value.value != 0
  }

  /** The tile t is what `new Tile(...)` makes of the saved entry e, or null for no entry. */
  ghost predicate Restores(t: Tile?, e: Option<TileState>)
    reads t
  {
    (t == null <==> e.None?) &&
    (t != null ==> Some(t.Serialize()) == Normalized(e) && t.mergedFrom == None)
  }

  /** Every saved tile records the cell it is saved in. */
  predicate PositionsMatch(state: seq<seq<Option<TileState>>>, size: nat)
    requires StateCovers(state, size)
  {
    forall x, y :: 0 <= x < size && 0 <= y < size && StateAt(state, x, y).Some? ==>
      StateAt(state, x, y).value.position == Position(x, y)
  }

  /** What the rules see of a restored cell. */
  function RestoredCell(e: Option<TileState>): Cell {
    if e.None? then Empty else Occupied(InitialValue(e.value.value), false)
  }

  /** The board a grid restored from the state shows. */
  function StateBoard(state: seq<seq<Option<TileState>>>, n: nat): (b: Board)
    requires StateCovers(state, n)
    ensures IsBoard(b, n)
    ensures forall x, y :: 0 <= x < n && 0 <= y < n ==> b[x][y] == RestoredCell(StateAt(state, x, y))
  {
    seq(n, x requires 0 <= x < n => seq(n, y requires 0 <= y < n => RestoredCell(StateAt(state, x, y))))
  }

  /**
   * Restoring a grid from a saved state and serialising it gives the state back,
   * except that a saved value of 0 comes back as 2.
   */
  method RestoreRoundTrip(size: nat, state: seq<seq<Option<TileState>>>) returns (s: GridState)
    requires StateCovers(state, size)
    ensures s.size == size && |s.cellState| == size
    ensures forall x :: 0 <= x < size ==> |s.cellState[x]| == size
    ensures forall x, y :: 0 <= x < size && 0 <= y < size ==> s.cellState[x][y] == Normalized(StateAt(state, x, y))
    ensures forall x, y :: 0 <= x < size && 0 <= y < size && NonZero(StateAt(state, x, y)) ==>
      s.cellState[x][y] == StateAt(state, x, y)
  {
    var g := new Grid(size, Some(state));
    s := g.SerializeRows();
  }

  /** A board with no tiles. */
  function EmptyBoard(n: nat): (b: Board)
    ensures IsBoard(b, n)
    ensures forall p {:trigger At(b, n, p)} :: InBounds(n, p) ==> At(b, n, p) == Empty
  {
    seq(n, x => seq(n, y => Empty))
  }
}
