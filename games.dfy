/**
 * The `GameManager` class of src/game_manager.ts: it owns the grid, the score and the
 * `over` / `won` flags, and plays one move per `move(direction)` call. Every method
 * is tied to the pure rules of the `Rules` module: a move changes the grid exactly as
 * `Slide` followed by `Spawned` says, and the score by the points `Slide` counts.
 */
module Games {
  import opened Wrappers
  import opened Tiles
  import opened Rules
  import opened Grids

  /** `GameState`: what `actuate` hands to the actuator, with the grid as a board. */
  datatype GameState = GameState(board: Board, score: int, over: bool, won: bool, terminated: bool)

  /** One call of the actuator: the state shown and the direction of the move, if any. */
  datatype Actuation = Actuation(state: GameState, direction: Option<Direction>)

  /** Spawned applied k times in a row. */
  ghost predicate SpawnedTimes(before: Board, after: Board, n: nat, k: nat)
    requires IsBoard(before, n)
    decreases k
  {
    if k == 0 then after == before
    else exists middle :: IsBoard(middle, n) && SpawnedTimes(before, middle, n, k - 1) && Spawned(middle, after, n)
  }

  /**
   * What a move that is not refused does, as seen by the rules: the traversal of
   * `Slide`, then (only if some tile moved) one spawned tile and the game-over test.
   */
  ghost predicate Played(before: Board, n: nat, direction: Direction, after: Board,
                         gained: int, over: bool, won: bool)
    requires IsBoard(before, n) && IsBoard(after, n)
  {
    var r := Slide(before, n, GetVector(direction));
    gained == r.gained && won == r.reached &&
    if r.moved then Spawned(r.board, after, n) && (over <==> !MovesAvailable(after, n))
    else after == r.board && !over
  }

  class GameManager {
    const size: nat
    const startTiles: nat
    const grid: Grid
    var score: int
    var over: bool
    var won: bool
    /** Every call of the actuator, oldest first. */
    ghost var actuations: seq<Actuation>

    /** The grid is well formed, `size` wide and holds only game values; the score is not negative. */
    ghost predicate Valid()
      reads this`score, grid, grid.tiles
    {
      grid.Valid() && grid.size == size && TileValues(grid.board, size) && score >= 0
    }

    /** The game in the form `actuate` reports it. */
    ghost function State(): GameState
      reads this`score, this`over, this`won, grid`board
    {
      GameState(grid.board, score, over, won, IsGameTerminated())
    }

    /** `new GameManager(size, ...)`: an empty grid, then `startTiles` (2) spawned tiles. */
    constructor (size: nat)
      ensures Valid()
      ensures this.size == size && startTiles == 2
      ensures score == 0 && !over && !won && actuations == []
      ensures SpawnedTimes(EmptyBoard(size), grid.board, size, 2)
      ensures fresh(grid)
    {
      this.size := size;
      startTiles := 2;
      grid := new Grid(size, None);
      score := 0;
      over := false;
      won := false;
      actuations := [];
      new;
      EmptyBoardValues(size);
      AddStartTiles();
    }

    /** `isGameTerminated`: the game is lost, or it is won. */
    predicate IsGameTerminated()
      reads this`over, this`won
    {
      over || won
    }

    /** `addStartTiles`: `startTiles` calls of `addRandomTile`. */
    method AddStartTiles()
      requires Valid()
      modifies grid
      ensures Valid()
      ensures SpawnedTimes(old(grid.board), grid.board, size, startTiles)
    {
      ghost var before := grid.board;
      for i := 0 to startTiles
        invariant Valid()
        invariant SpawnedTimes(before, grid.board, size, i)
      {
        ghost var middle := grid.board;
        AddRandomTile();
        SpawnedOnceMore(before, middle, grid.board, size, i);
      }
    }

    /**
     * `addRandomTile`: when a cell is free, a new tile of value 2 or 4 (the source
     * picks 2 with probability 0.9) goes to a free cell chosen at random.
     */
    method AddRandomTile()
      requires Valid()
      modifies grid
      ensures Valid()
      ensures Spawned(old(grid.board), grid.board, size)
    {
      grid.CellsAvailableMeaning();
      if grid.CellsAvailable() {
        var value: int :| value in {2, 4};
        var cell := grid.RandomAvailableCell();
        var tile := new Tile(cell.value, value);
        ghost var before := grid.board;
        grid.InsertTile(tile);
        SpawnKeepsValues(before, size, cell.value, value);
        assert grid.board == Set(before, size, cell.value, Occupied(value, false));
      }
    }

    /** `actuate`: hands the current state and the direction to the actuator. */
    method Actuate(direction: Option<Direction>)
      modifies this`actuations
      ensures actuations == old(actuations) + [Actuation(State(), direction)]
    {
      actuations := actuations + [Actuation(State(), direction)];
    }

    /**
     * `prepareTiles`: every tile forgets its merge and records its position. The board
     * keeps every tile and loses every merge marker.
     */
    method PrepareTiles()
      requires grid.Valid() && grid.size == size
      modifies grid`board, grid.tiles
      ensures grid.Valid()
      ensures grid.board == Prepared(old(grid.board), size)
      ensures forall x, y :: 0 <= x < size && 0 <= y < size && grid.cells[x][y] != null ==>
        grid.cells[x][y].previousPosition == Some(Position(x, y))
    {
      ghost var b0 := grid.board;
      for x := 0 to size
        invariant grid.Valid()
        invariant forall q {:trigger At(grid.board, size, q)} :: InBounds(size, q) ==>
          At(grid.board, size, q) == if q.x < x then Unmark(At(b0, size, q)) else At(b0, size, q)
        invariant forall i, j :: 0 <= i < x && 0 <= j < size && grid.cells[i][j] != null ==>
          grid.cells[i][j].previousPosition == Some(Position(i, j))
      {
        for y := 0 to size
          invariant grid.Valid()
          invariant forall q {:trigger At(grid.board, size, q)} :: InBounds(size, q) ==>
            At(grid.board, size, q) == if CellOrder(q, Position(x, y)) then Unmark(At(b0, size, q)) else At(b0, size, q)
          invariant forall i, j ::
            0 <= i < size && 0 <= j < size && CellOrder(Position(i, j), Position(x, y)) && grid.cells[i][j] != null ==>
              grid.cells[i][j].previousPosition == Some(Position(i, j))
        {
          PrepareCell(x, y);
        }
      }
      BoardsEqual(grid.board, Prepared(b0, size), size);
    }

    /** The callback `prepareTiles` hands to `eachCell`, for the cell (x, y). */
    method PrepareCell(x: int, y: int)
      requires grid.Valid() && grid.size == size && 0 <= x < size && 0 <= y < size
      modifies grid`board, if grid.cells[x][y] == null then {} else {grid.cells[x][y]}
      ensures grid.Valid()
      ensures grid.board == Set(old(grid.board), size, Position(x, y), Unmark(At(old(grid.board), size, Position(x, y))))
      ensures grid.cells[x][y] != null ==> grid.cells[x][y].previousPosition == Some(Position(x, y))
    {
      var tile := grid.cells[x][y];
      grid.ViewAt(Position(x, y));
      if tile != null {
        tile.mergedFrom := None;
        grid.board := Set(grid.board, size, Position(x, y), Occupied(tile.value, false));
        tile.SavePosition();
      } else {
        BoardsEqual(grid.board, Set(grid.board, size, Position(x, y), Empty), size);
      }
    }

    /**
     * `moveTile`: clears the tile's own cell, writes the tile into the target cell and
     * gives it the target's coordinates.
     */
    method MoveTile(tile: Tile, cell: Position)
      requires grid.Valid() && grid.size == size
      requires InBounds(size, Position(tile.x, tile.y)) && InBounds(size, cell)
      modifies grid, tile`x, tile`y
      ensures grid.Valid()
      ensures grid.tiles == old(grid.tiles) + {tile}
      ensures tile.x == cell.x && tile.y == cell.y
      ensures grid.board == Set(Set(old(grid.board), size, old(Position(tile.x, tile.y)), Empty),
                                 size, cell, CellOf(tile))
      ensures grid.cells == (var cleared := old(grid.cells)[old(tile.x) := old(grid.cells)[old(tile.x)][old(tile.y) := null]];
                             cleared[cell.x := cleared[cell.x][cell.y := tile]])
      ensures grid.cells[cell.x][cell.y] == tile
    {
      grid.RemoveTile(tile);
      assert forall x, y :: 0 <= x < size && 0 <= y < size ==> grid.cells[x][y] != tile;
      tile.UpdatePosition(cell);
      grid.InsertTile(tile);
    }

    /**
     * `findFarthestPosition`: walks from `cell` along `vector` while the next cell is
     * on the board and free; `farthest` is where the walk stops and `next` the cell
     * that stopped it.
     */
    method FindFarthestPosition(cell: Position, vector: Position) returns (farthest: Position, next: Position)
      requires grid.Mirrors() && grid.size == size && InBounds(size, cell) && IsVector(vector)
      ensures farthest == Along(cell, vector, SlideLength(grid.board, size, cell, vector))
      ensures next == Add(farthest, vector)
    {
      ghost var b := grid.board;
      grid.ViewCells();
      ghost var k := 0;
      var previous := cell;
      var current := Add(previous, vector);
      while grid.WithinBounds(current) && grid.CellAvailable(current)
        invariant InBounds(size, previous) && previous == Along(cell, vector, k)
        invariant current == Add(previous, vector)
        invariant SlideLength(b, size, cell, vector) == k + SlideLength(b, size, previous, vector)
        decreases Dist(size, previous, vector)
      {
        previous := current;
        current := Add(previous, vector);
        k := k + 1;
      }
      farthest, next := previous, current;
    }

    /**
     * `buildTraversals`: the indices 0 .. size-1 for each axis, reversed on the axis
     * the vector points along in the positive direction, so tiles nearest the
     * destination edge are handled first.
     */
    method BuildTraversals(vector: Position) returns (xs: seq<int>, ys: seq<int>)
      ensures |xs| == size && |ys| == size
      ensures forall i :: 0 <= i < size ==> xs[i] == TraversalAt(size, vector.x, i)
      ensures forall i :: 0 <= i < size ==> ys[i] == TraversalAt(size, vector.y, i)
    {
      xs, ys := [], [];
      for pos := 0 to size
        invariant xs == ys == Ascending(pos)
      {
        xs := xs + [pos];
        ys := ys + [pos];
      }
      if vector.x == 1 {
        xs := Reverse(xs);
      }
      if vector.y == 1 {
        ys := Reverse(ys);
      }
    }

    /** `tileMatchesAvailable`: some tile has a 4-neighbour of equal value. */
    method TileMatchesAvailable() returns (r: bool)
      requires grid.Mirrors() && grid.size == size
      ensures r <==> HasMatch(grid.board, size)
    {
      grid.ViewCells();
      for x := 0 to size
        invariant forall p: Position, d: Direction :: p.x < x ==> !MatchAt(grid.board, size, p, d)
      {
        for y := 0 to size
          invariant forall p: Position, d: Direction :: p.x < x || (p.x == x && p.y < y) ==> !MatchAt(grid.board, size, p, d)
        {
          var tile := grid.CellContent(Position(x, y));
          if tile != null {
            for direction := 0 to 4
              invariant forall d: Direction :: d < direction ==> !MatchAt(grid.board, size, Position(x, y), d)
            {
              var vector := GetVector(direction);
              var cell := Position(x + vector.x, y + vector.y);
              var other := grid.CellContent(cell);
              if other != null && other.value == tile.value {
                assert MatchAt(grid.board, size, Position(x, y), direction);
                return true;
              }
            }
          }
        }
      }
      return false;
    }

    /** `movesAvailable`: a free cell, or two equal neighbours. */
    method MovesAvailable() returns (r: bool)
      requires grid.Mirrors() && grid.size == size
      ensures r <==> Rules.MovesAvailable(grid.board, size)
    {
      if grid.CellsAvailable() {
        r := true;
      } else {
        r := TileMatchesAvailable();
      }
      grid.CellsAvailableMeaning();
    }

    /**
     * The body of the traversal in `move` for one cell: the tile there (if any) merges
     * into `next` when that holds an equal tile that has not merged yet, and otherwise
     * slides to `farthest`. `tileMoved` says whether the tile left its cell. This is
     * exactly one `Step` of the rules.
     */
    method TraverseCell(cell: Position, vector: Position, ghost s: Progress) returns (tileMoved: bool)
      requires grid.Valid() && grid.size == size && InBounds(size, cell) && IsVector(vector)
      requires IsBoard(s.board, size) && s.board == grid.board && s.reached == won
      modifies this`score, this`won, grid, grid.tiles
      ensures grid.Valid()
      ensures fresh(grid.tiles - old(grid.tiles))
      ensures grid.board == Step(s, size, vector, cell).board
      ensures score == old(score) + Step(s, size, vector, cell).gained - s.gained
      ensures won == Step(s, size, vector, cell).reached
      ensures Step(s, size, vector, cell).moved <==> s.moved || tileMoved
    {
      tileMoved := false;
      grid.ViewAt(cell);
      var tile := grid.CellContent(cell);
      if tile != null {
        var farthest, next := FindFarthestPosition(cell, vector);
        var nextTile := grid.CellContent(next);
        if InBounds(size, next) {
          grid.ViewAt(next);
        }
        if nextTile != null && nextTile.value == tile.value && nextTile.mergedFrom.None? {
          MergeStep(tile, nextTile, cell, vector, next, s);
        } else {
          SlideStep(tile, cell, vector, farthest, s);
        }
        tileMoved := !PositionsEqual(cell, Position(tile.x, tile.y));
      }
    }

    /** The merge branch of the traversal body, as one `Step` of the rules. */
    method MergeStep(tile: Tile, nextTile: Tile, cell: Position, vector: Position, next: Position,
                     ghost s: Progress)
      requires grid.Valid() && grid.size == size && InBounds(size, cell) && IsVector(vector)
      requires IsBoard(s.board, size) && s.board == grid.board && s.reached == won
      requires grid.cells[cell.x][cell.y] == tile
      requires next == Add(Along(cell, vector, SlideLength(s.board, size, cell, vector)), vector)
      requires InBounds(size, next) && At(s.board, size, next) == Occupied(tile.value, false)
      modifies this`score, this`won, grid, tile`x, tile`y
      ensures grid.Valid()
      ensures fresh(grid.tiles - old(grid.tiles))
      ensures grid.board == Step(s, size, vector, cell).board
      ensures score == old(score) + Step(s, size, vector, cell).gained - s.gained
      ensures won == Step(s, size, vector, cell).reached
      ensures Step(s, size, vector, cell).moved && Position(tile.x, tile.y) != cell
    {
      grid.ViewAt(cell);
      StepMerges(s, size, vector, cell, next, tile.value, tile.mergedFrom.Some?);
      MergeTiles(tile, nextTile, next);
    }

    /** The other branch of the traversal body: the tile slides to `farthest`. */
    method SlideStep(tile: Tile, cell: Position, vector: Position, farthest: Position, ghost s: Progress)
      requires grid.Valid() && grid.size == size && InBounds(size, cell) && IsVector(vector)
      requires IsBoard(s.board, size) && s.board == grid.board && s.reached == won
      requires grid.cells[cell.x][cell.y] == tile
      requires farthest == Along(cell, vector, SlideLength(s.board, size, cell, vector))
      requires !(InBounds(size, Add(farthest, vector)) &&
                 At(s.board, size, Add(farthest, vector)) == Occupied(tile.value, false))
      modifies grid, tile`x, tile`y
      ensures grid.Valid()
      ensures grid.tiles == old(grid.tiles)
      ensures grid.board == Step(s, size, vector, cell).board
      ensures Step(s, size, vector, cell).gained == s.gained
      ensures Step(s, size, vector, cell).reached == s.reached
      ensures Step(s, size, vector, cell).moved <==> s.moved || Position(tile.x, tile.y) != cell
    {
      grid.ViewAt(cell);
      StepSlides(s, size, vector, cell, farthest, tile.value, tile.mergedFrom.Some?);
      MoveTile(tile, farthest);
    }

    /**
     * The merge in `move`: a new tile of twice the value, remembering the two tiles it
     * came from, replaces `next`; the moving tile leaves its cell and takes the
     * coordinates of `next`; the score grows by the new value, and a 2048 wins.
     */
    method MergeTiles(tile: Tile, nextTile: Tile, next: Position)
      requires grid.Valid() && grid.size == size
      requires InBounds(size, Position(tile.x, tile.y)) && InBounds(size, next)
      requires Position(tile.x, tile.y) != next
      modifies this`score, this`won, grid, tile`x, tile`y
      ensures grid.Valid()
      ensures fresh(grid.tiles - old(grid.tiles))
      ensures grid.board == Set(Set(old(grid.board), size, next, Occupied(InitialValue(tile.value * 2), true)),
                                 size, old(Position(tile.x, tile.y)), Empty)
      ensures tile.x == next.x && tile.y == next.y
      ensures score == old(score) + InitialValue(tile.value * 2)
      ensures won == (old(won) || InitialValue(tile.value * 2) == WinningValue)
      ensures fresh(grid.cells[next.x][next.y])
      ensures grid.cells[next.x][next.y].mergedFrom == Some((tile, nextTile))
      ensures grid.cells == (var placed := old(grid.cells)[next.x := old(grid.cells)[next.x][next.y := grid.cells[next.x][next.y]]];
                             placed[old(tile.x) := placed[old(tile.x)][old(tile.y) := null]])
    {
      var merged := PlaceMerged(tile, nextTile, next);
      grid.RemoveTile(tile);
      grid.Release(tile);
      tile.UpdatePosition(next);
      score := score + merged.value;
      if merged.value == 2048 {
        won := true;
      }
    }

    /** The first half of the merge: a new tile of twice the value, made from the pair, goes into `next`. */
    method PlaceMerged(tile: Tile, nextTile: Tile, next: Position) returns (merged: Tile)
      requires grid.Valid() && grid.size == size && InBounds(size, next)
      modifies grid
      ensures fresh(merged)
      ensures merged.x == next.x && merged.y == next.y && merged.value == InitialValue(tile.value * 2)
      ensures merged.mergedFrom == Some((tile, nextTile))
      ensures grid.Valid()
      ensures grid.tiles == old(grid.tiles) + {merged}
      ensures grid.cells == old(grid.cells)[next.x := old(grid.cells)[next.x][next.y := merged]]
      ensures grid.board == Set(old(grid.board), size, next, Occupied(InitialValue(tile.value * 2), true))
    {
      merged := new Tile(next, tile.value * 2);
      merged.mergedFrom := Some((tile, nextTile));
      grid.InsertTile(merged);
    }

    /**
     * `move(direction)`. A terminated game ignores the move. Otherwise the tiles are
     * prepared and traversed, a tile is spawned and the game-over test made if any tile
     * moved, and the actuator is told.
     */
    method Move(direction: Direction)
      requires Valid()
      modifies this, grid, grid.tiles
      ensures Valid()
      ensures old(IsGameTerminated()) ==>
        score == old(score) && over == old(over) && won == old(won) &&
        actuations == old(actuations) && grid.cells == old(grid.cells) && grid.board == old(grid.board)
      ensures !old(IsGameTerminated()) ==>
        Played(old(grid.board), size, direction, grid.board, score - old(score), over, won) &&
        actuations == old(actuations) + [Actuation(State(), Some(direction))]
      ensures score >= old(score)
    {
      if IsGameTerminated() {
        return;
      }
      var vector := GetVector(direction);
      var xs, ys := BuildTraversals(vector);
      ghost var before := grid.board;
      PrepareTiles();
      PreparedValues(before, size);
      var moved := Traverse(vector, xs, ys, Start(before, size));
      SweepGain(Start(before, size), size, vector, size, 0);
      AfterTraversal(moved);
      Actuate(Some(direction));
    }

    /**
     * The end of `move`, once the traversal is done: if a tile moved, a tile is spawned
     * and the game is over when no move is left.
     */
    method AfterTraversal(moved: bool)
      requires Valid()
      modifies this`over, grid
      ensures Valid()
      ensures moved ==>
        Spawned(old(grid.board), grid.board, size) && (over <==> old(over) || !Rules.MovesAvailable(grid.board, size))
      ensures !moved ==> grid.board == old(grid.board) && over == old(over)
    {
      if moved {
        AddRandomTile();
        var available := MovesAvailable();
        if !available {
          over := true;
        }
      }
    }

    /**
     * The nested `forEach` of `move` over `traversals.x` and `traversals.y`: the
     * traversal body for every cell, in order. `moved` says whether any tile moved.
     */
    method Traverse(vector: Position, xs: seq<int>, ys: seq<int>, ghost s0: Progress) returns (moved: bool)
      requires grid.Valid() && grid.size == size && IsVector(vector)
      requires |xs| == size && |ys| == size
      requires forall i :: 0 <= i < size ==> xs[i] == TraversalAt(size, vector.x, i) && ys[i] == TraversalAt(size, vector.y, i)
      requires IsBoard(s0.board, size) && s0.board == grid.board && !s0.moved && s0.reached == won
      modifies this`score, this`won, grid, grid.tiles
      ensures grid.Valid()
      ensures fresh(grid.tiles - old(grid.tiles))
      ensures grid.board == Sweep(s0, size, vector, size, 0).board
      ensures score == old(score) + Sweep(s0, size, vector, size, 0).gained - s0.gained
      ensures moved == Sweep(s0, size, vector, size, 0).moved
      ensures won == Sweep(s0, size, vector, size, 0).reached
    {
      moved := false;
      for i := 0 to size
        invariant grid.Valid()
        invariant fresh(grid.tiles - old(grid.tiles))
        invariant grid.board == Sweep(s0, size, vector, i, 0).board
        invariant score == old(score) + Sweep(s0, size, vector, i, 0).gained - s0.gained
        invariant moved == Sweep(s0, size, vector, i, 0).moved
        invariant won == Sweep(s0, size, vector, i, 0).reached
      {
        for j := 0 to size
          invariant grid.Valid()
          invariant fresh(grid.tiles - old(grid.tiles))
          invariant grid.board == Sweep(s0, size, vector, i, j).board
          invariant score == old(score) + Sweep(s0, size, vector, i, j).gained - s0.gained
          invariant moved == Sweep(s0, size, vector, i, j).moved
          invariant won == Sweep(s0, size, vector, i, j).reached
        {
          var cell := Position(xs[i], ys[j]);
          var tileMoved := TraverseCell(cell, vector, Sweep(s0, size, vector, i, j));
          if tileMoved {
            moved := true;
          }
        }
      }
    }
  }

  /** 0, 1, ..., k-1. */
  function Ascending(k: nat): (s: seq<int>)
    ensures |s| == k && forall i :: 0 <= i < k ==> s[i] == i
  {
    if k == 0 then [] else Ascending(k - 1) + [k - 1]
  }

  /** `Array.prototype.reverse`, on a sequence. */
  function Reverse(s: seq<int>): (r: seq<int>)
    ensures |r| == |s| && forall i :: 0 <= i < |s| ==> r[i] == s[|s| - 1 - i]
  {
    if s == [] then [] else [s[|s| - 1]] + Reverse(s[..|s| - 1])
  }

  /** Clearing the merge markers keeps every tile's value. */
  lemma PreparedValues(b: Board, n: nat)
    requires IsBoard(b, n) && TileValues(b, n)
    ensures TileValues(Prepared(b, n), n)
  {
    forall p | InBounds(n, p) && At(Prepared(b, n), n, p).Occupied?
      ensures IsTileValue(At(Prepared(b, n), n, p).value)
    {
      assert At(b, n, p).Occupied?;
    }
  }

  /** One more spawn after k spawns makes k + 1. */
  lemma SpawnedOnceMore(before: Board, middle: Board, after: Board, n: nat, k: nat)
    requires IsBoard(before, n) && IsBoard(middle, n)
    requires SpawnedTimes(before, middle, n, k) && Spawned(middle, after, n)
    ensures SpawnedTimes(before, after, n, k + 1)
  {
    assert IsBoard(middle, n) && SpawnedTimes(before, middle, n, k) && Spawned(middle, after, n);
  }

  /** An empty board holds only game values: vacuously. */
  lemma EmptyBoardValues(n: nat)
    ensures TileValues(EmptyBoard(n), n)
  {
  }

  /** A spawned 2 or 4 is a game value. */
  lemma SpawnKeepsValues(b: Board, n: nat, p: Position, value: int)
    requires IsBoard(b, n) && InBounds(n, p) && TileValues(b, n) && (value == 2 || value == 4)
    ensures TileValues(Set(b, n, p, Occupied(value, false)), n)
  {
    assert IsTileValue(2) && IsTileValue(4) by {
      assert IsPowerOfTwo(1);
    }
  }
}
