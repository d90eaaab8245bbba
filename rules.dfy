/**
 * The rule set of src/game_manager.ts stated on board values: what one move does to the
 * board, the score and the win flag, cell by cell in the order `move` visits the cells.
 * The class GameManager (module Games) is proved to follow this specification; the
 * lemmas at the end of this module state what the rules guarantee.
 */
module Rules {
  import opened Tiles

  /** `Direction = 0 | 1 | 2 | 3`: up, right, down, left. */
  type Direction = d: int | 0 <= d < 4

  /** The value whose creation by a merge wins the game. */
  const WinningValue := 2048

  /** The four unit vectors a move can follow. */
  predicate IsVector(v: Position) {
    (v.x == 0 && (v.y == 1 || v.y == -1)) || (v.y == 0 && (v.x == 1 || v.x == -1))
  }

  /** `getVector`: up is y - 1, right is x + 1, down is y + 1, left is x - 1. */
  function GetVector(direction: Direction): (v: Position)
    ensures IsVector(v)
    ensures v.x == 0 <==> direction % 2 == 0
    ensures v.x + v.y == (if direction == 0 || direction == 3 then -1 else 1)
  {
    match direction
    case 0 => Position(0, -1)
    case 1 => Position(1, 0)
    case 2 => Position(0, 1)
    case 3 => Position(-1, 0)
  }

  /** Every unit vector is the vector of exactly one direction. */
  lemma VectorOfSomeDirection(v: Position)
    requires IsVector(v)
    ensures exists d: Direction :: GetVector(d) == v
    ensures forall d: Direction, e: Direction :: GetVector(d) == GetVector(e) ==> d == e
  {
    if v == Position(0, -1) {
      assert GetVector(0) == v;
    } else if v == Position(1, 0) {
      assert GetVector(1) == v;
    } else if v == Position(0, 1) {
      assert GetVector(2) == v;
    } else {
      assert GetVector(3) == v;
    }
  }

  /** `positionsEqual`: component-wise comparison is equality of coordinates. */
  function PositionsEqual(first: Position, second: Position): (r: bool)
    ensures r <==> first == second
  {
    first.x == second.x && first.y == second.y
  }

  function Add(p: Position, v: Position): Position {
    Position(p.x + v.x, p.y + v.y)
  }

  /** k times a vector component c in {-1, 0, 1}, kept linear. */
  function Scale(k: int, c: int): int {
    if c == 1 then k else if c == -1 then -k else 0
  }

  /** The cell k steps from p along v. */
  function Along(p: Position, v: Position, k: int): Position {
    Position(p.x + Scale(k, v.x), p.y + Scale(k, v.y))
  }

  // ---------------------------------------------------------------------------
  // Boards

  /**
   * What the rules see of a cell: nothing, or a tile's value together with whether
   * the tile was produced by a merge during the current move (`mergedFrom != null`).
   */
  datatype Cell = Empty | Occupied(value: int, merged: bool)

  /** `cells[x][y]` as values. */
  type Board = seq<seq<Cell>>

  predicate IsBoard(b: Board, n: nat) {
    |b| == n && forall x :: 0 <= x < n ==> |b[x]| == n
  }

  /** `withinBounds`. */
  predicate InBounds(n: int, p: Position) {
    0 <= p.x < n && 0 <= p.y < n
  }

  function At(b: Board, n: nat, p: Position): Cell
    requires IsBoard(b, n) && InBounds(n, p)
  {
    b[p.x][p.y]
  }

  /** The board with cell p replaced by c. */
  function Set(b: Board, n: nat, p: Position, c: Cell): (r: Board)
    requires IsBoard(b, n) && InBounds(n, p)
    ensures IsBoard(r, n)
    ensures forall q {:trigger At(r, n, q)} :: InBounds(n, q) ==> At(r, n, q) == if q == p then c else At(b, n, q)
  {
    b[p.x := b[p.x][p.y := c]]
  }

  /** Two boards that agree on every cell are equal. */
  lemma BoardsEqual(a: Board, b: Board, n: nat)
    requires IsBoard(a, n) && IsBoard(b, n)
    requires forall q {:trigger At(a, n, q)} :: InBounds(n, q) ==> At(a, n, q) == At(b, n, q)
    ensures a == b
  {
    forall x | 0 <= x < n
      ensures a[x] == b[x]
    {
      forall y | 0 <= y < n
        ensures a[x][y] == b[x][y]
      {
        assert At(a, n, Position(x, y)) == At(b, n, Position(x, y));
      }
    }
  }

  /** `withinBounds(cell) && cellAvailable(cell)`: a cell a sliding tile may enter. */
  predicate Open(b: Board, n: nat, q: Position)
    requires IsBoard(b, n)
  {
    InBounds(n, q) && At(b, n, q) == Empty
  }

  /** The positions of all tiles on the board. */
  ghost function Occupancy(b: Board, n: nat): set<Position>
    requires IsBoard(b, n)
  {
    set x, y | 0 <= x < n && 0 <= y < n && b[x][y].Occupied? :: Position(x, y)
  }

  ghost function Count(b: Board, n: nat): nat
    requires IsBoard(b, n)
  {
    |Occupancy(b, n)|
  }

  /** Membership in the tile set is occupancy of an in-bounds cell. */
  lemma InOccupancy(b: Board, n: nat, q: Position)
    requires IsBoard(b, n)
    ensures q in Occupancy(b, n) <==> InBounds(n, q) && At(b, n, q).Occupied?
  {
    if InBounds(n, q) && At(b, n, q).Occupied? {
      assert q == Position(q.x, q.y);
    }
  }

  /** How the tile set changes when one cell is overwritten. */
  lemma TilesAfterSet(b: Board, n: nat, p: Position, c: Cell)
    requires IsBoard(b, n) && InBounds(n, p)
    ensures Occupancy(Set(b, n, p, c), n) == if c.Occupied? then Occupancy(b, n) + {p} else Occupancy(b, n) - {p}
  {
    var r := Set(b, n, p, c);
    var want := if c.Occupied? then Occupancy(b, n) + {p} else Occupancy(b, n) - {p};
    forall q
      ensures q in Occupancy(r, n) <==> q in want
    {
      InOccupancy(r, n, q);
      InOccupancy(b, n, q);
    }
  }

  /** Some cell is empty (`cellsAvailable`). */
  ghost predicate HasEmpty(b: Board, n: nat)
    requires IsBoard(b, n)
  {
    exists p :: InBounds(n, p) && At(b, n, p) == Empty
  }

  /** The tile at p and its neighbour in direction d hold equal values. */
  predicate MatchAt(b: Board, n: nat, p: Position, d: Direction)
    requires IsBoard(b, n)
  {
    var q := Add(p, GetVector(d));
    InBounds(n, p) && At(b, n, p).Occupied? &&
    InBounds(n, q) && At(b, n, q).Occupied? && At(b, n, q).value == At(b, n, p).value
  }

  /** `tileMatchesAvailable`: two 4-neighbours hold equal values. */
  ghost predicate HasMatch(b: Board, n: nat)
    requires IsBoard(b, n)
  {
    exists p, d: Direction :: MatchAt(b, n, p, d)
  }

  /** `movesAvailable`. */
  ghost predicate MovesAvailable(b: Board, n: nat)
    requires IsBoard(b, n)
  {
    HasEmpty(b, n) || HasMatch(b, n)
  }

  /** A power of two. */
  predicate IsPowerOfTwo(v: int)
    decreases v
  {
    v == 1 || (v > 1 && v % 2 == 0 && IsPowerOfTwo(v / 2))
  }

  /** The values tiles take in a game: 2, 4, 8, ... */
  predicate IsTileValue(v: int) {
    v >= 2 && IsPowerOfTwo(v)
  }

  ghost predicate TileValues(b: Board, n: nat)
    requires IsBoard(b, n)
  {
    forall p {:trigger At(b, n, p)} :: InBounds(n, p) && At(b, n, p).Occupied? ==> IsTileValue(At(b, n, p).value)
  }

  /** No tile on the board carries the merge marker. */
  ghost predicate Unmarked(b: Board, n: nat)
    requires IsBoard(b, n)
  {
    forall p {:trigger At(b, n, p)} :: InBounds(n, p) && At(b, n, p).Occupied? ==> !At(b, n, p).merged
  }

  /** A cell with its merge marker cleared. */
  function Unmark(c: Cell): (r: Cell)
    ensures r.Empty? <==> c.Empty?
    ensures r.Occupied? ==> r.value == c.value && !r.merged
  {
    if c.Occupied? then Occupied(c.value, false) else Empty
  }

  /** `prepareTiles` as seen by the rules: every merge marker is cleared. */
  function Prepared(b: Board, n: nat): (r: Board)
    requires IsBoard(b, n)
    ensures IsBoard(r, n) && Unmarked(r, n)
    ensures forall p {:trigger At(r, n, p)} :: InBounds(n, p) ==> At(r, n, p) == Unmark(At(b, n, p))
  {
    seq(n, x requires 0 <= x < n => seq(n, y requires 0 <= y < n => Unmark(b[x][y])))
  }

  // ---------------------------------------------------------------------------
  // Sliding

  /** Steps left from p to the edge of the board along v. */
  function Dist(n: nat, p: Position, v: Position): int {
    (if v.x == 1 then n - p.x else if v.x == -1 then p.x + 1 else 0) +
    (if v.y == 1 then n - p.y else if v.y == -1 then p.y + 1 else 0)
  }

  /**
   * `findFarthestPosition` as a number of steps: how many open cells the tile at p
   * can cross along v before the board edge or another tile stops it.
   */
  function SlideLength(b: Board, n: nat, p: Position, v: Position): nat
    requires IsBoard(b, n) && InBounds(n, p) && IsVector(v)
    decreases Dist(n, p, v)
  {
    var q := Add(p, v);
    if Open(b, n, q) then 1 + SlideLength(b, n, q, v) else 0
  }

  /**
   * With k = SlideLength(b, n, p, v): `farthest`, Along(p, v, k), is p itself or an
   * open cell, every cell crossed on the way is open, and `next`, Along(p, v, k + 1),
   * is off the board or occupied.
   */
  lemma {:induction false} SlideLengthSpec(b: Board, n: nat, p: Position, v: Position)
    requires IsBoard(b, n) && InBounds(n, p) && IsVector(v)
    ensures InBounds(n, Along(p, v, SlideLength(b, n, p, v)))
    ensures forall j :: 1 <= j <= SlideLength(b, n, p, v) ==> Open(b, n, Along(p, v, j))
    ensures !Open(b, n, Along(p, v, SlideLength(b, n, p, v) + 1))
    decreases Dist(n, p, v)
  {
    var q := Add(p, v);
    var k := SlideLength(b, n, p, v);
    AlongFromNext(p, v, 1);
    if Open(b, n, q) {
      SlideLengthSpec(b, n, q, v);
      forall j | 1 <= j <= k
        ensures Open(b, n, Along(p, v, j))
      {
        AlongFromNext(p, v, j);
      }
      AlongFromNext(p, v, k);
      AlongFromNext(p, v, k + 1);
    }
  }

  /** Walking j steps from p is walking j - 1 steps from the next cell. */
  lemma AlongFromNext(p: Position, v: Position, j: int)
    requires IsVector(v)
    ensures Along(p, v, 0) == p
    ensures Along(p, v, j) == Along(Add(p, v), v, j - 1)
  {
  }

  // ---------------------------------------------------------------------------
  // One move

  /**
   * The state `move` carries from cell to cell: the board, the score gained so far,
   * the number of merges, the `moved` flag and whether a merge has produced the
   * winning value.
   */
  datatype Progress = Progress(board: Board, gained: int, merges: nat, moved: bool, reached: bool)

  /**
   * The body of the traversal for the cell p: nothing if p is empty; otherwise the
   * tile there merges into the cell after its slide when that cell holds an equal,
   * unmarked tile, and slides to the farthest open cell when it does not.
   */
  function Step(s: Progress, n: nat, v: Position, p: Position): (r: Progress)
    requires IsBoard(s.board, n) && InBounds(n, p) && IsVector(v)
    ensures IsBoard(r.board, n)
  {
    match At(s.board, n, p)
    case Empty => s
    case Occupied(value, marked) =>
      SlideLengthSpec(s.board, n, p, v);
      var farthest := Along(p, v, SlideLength(s.board, n, p, v));
      var next := Add(farthest, v);
      if InBounds(n, next) && At(s.board, n, next) == Occupied(value, false) then
        var mergedValue := InitialValue(value * 2);
        Progress(Set(Set(s.board, n, next, Occupied(mergedValue, true)), n, p, Empty),
                 s.gained + mergedValue, s.merges + 1, true, s.reached || mergedValue == WinningValue)
      else
        Progress(Set(Set(s.board, n, p, Empty), n, farthest, Occupied(value, marked)),
                 s.gained, s.merges, s.moved || farthest != p, s.reached)
  }

  /** Step when the tile at p merges: its cell empties and `next` holds the doubled value. */
  lemma StepMerges(s: Progress, n: nat, v: Position, p: Position, next: Position, value: int, marked: bool)
    requires IsBoard(s.board, n) && InBounds(n, p) && IsVector(v)
    requires At(s.board, n, p) == Occupied(value, marked)
    requires next == Add(Along(p, v, SlideLength(s.board, n, p, v)), v)
    requires InBounds(n, next) && At(s.board, n, next) == Occupied(value, false)
    ensures InBounds(n, next) && next != p
    ensures Step(s, n, v, p) ==
      Progress(Set(Set(s.board, n, next, Occupied(InitialValue(value * 2), true)), n, p, Empty),
               s.gained + InitialValue(value * 2), s.merges + 1, true,
               s.reached || InitialValue(value * 2) == WinningValue)
  {
  }

  /** Step when the tile at p does not merge: it moves to `farthest`, keeping its marker. */
  lemma StepSlides(s: Progress, n: nat, v: Position, p: Position, farthest: Position, value: int, marked: bool)
    requires IsBoard(s.board, n) && InBounds(n, p) && IsVector(v)
    requires At(s.board, n, p) == Occupied(value, marked)
    requires farthest == Along(p, v, SlideLength(s.board, n, p, v))
    requires !(InBounds(n, Add(farthest, v)) && At(s.board, n, Add(farthest, v)) == Occupied(value, false))
    ensures InBounds(n, farthest)
    ensures Step(s, n, v, p) ==
      Progress(Set(Set(s.board, n, p, Empty), n, farthest, Occupied(value, marked)),
               s.gained, s.merges, s.moved || farthest != p, s.reached)
  {
    SlideLengthSpec(s.board, n, p, v);
  }

  /** `traversals.x[i]` (c = vector.x) or `traversals.y[i]` (c = vector.y). */
  function TraversalAt(n: nat, c: int, i: int): int {
    if c == 1 then n - 1 - i else i
  }

  /** The cell visited at outer index i and inner index j. */
  function CellAt(n: nat, v: Position, i: int, j: int): Position {
    Position(TraversalAt(n, v.x, i), TraversalAt(n, v.y, j))
  }

  /**
   * The state after the nested traversal has handled every cell of the outer
   * indices below i and the first j cells of outer index i.
   */
  function Sweep(s0: Progress, n: nat, v: Position, i: nat, j: nat): (r: Progress)
    requires IsBoard(s0.board, n) && IsVector(v)
    requires i <= n && j <= n && (i == n ==> j == 0)
    ensures IsBoard(r.board, n)
    decreases i, j
  {
    if j == 0 then
      if i == 0 then s0 else Sweep(s0, n, v, i - 1, n)
    else
      Step(Sweep(s0, n, v, i, j - 1), n, v, CellAt(n, v, i, j - 1))
  }

  /** The state `move` starts its traversal from. */
  function Start(b: Board, n: nat): (s: Progress)
    requires IsBoard(b, n)
    ensures IsBoard(s.board, n)
  {
    Progress(Prepared(b, n), 0, 0, false, false)
  }

  /** The whole traversal of one move, before a random tile is added. */
  function Slide(b: Board, n: nat, v: Position): (r: Progress)
    requires IsBoard(b, n) && IsVector(v)
    ensures IsBoard(r.board, n)
  {
    Sweep(Start(b, n), n, v, n, 0)
  }

  /**
   * `addRandomTile` as seen by the rules: a full board is kept as it is, otherwise one
   * empty cell receives a 2 or a 4.
   */
  ghost predicate Spawned(before: Board, after: Board, n: nat)
    requires IsBoard(before, n)
  {
    if HasEmpty(before, n) then
      exists p, value :: InBounds(n, p) && At(before, n, p) == Empty && (value == 2 || value == 4) &&
        after == Set(before, n, p, Occupied(value, false))
    else
      after == before
  }

  // ---------------------------------------------------------------------------
  // What the rules guarantee

  /** Cell p comes before the cell at (i, j) in the traversal order. */
  predicate Visited(n: nat, v: Position, q: Position, i: int, j: int) {
    TraversalAt(n, v.x, q.x) < i || (TraversalAt(n, v.x, q.x) == i && TraversalAt(n, v.y, q.y) < j)
  }

  /** `moved` only ever goes from false to true. */
  lemma {:induction false} MovedStays(s0: Progress, n: nat, v: Position, i: nat, j: nat)
    requires IsBoard(s0.board, n) && IsVector(v)
    requires i <= n && j <= n && (i == n ==> j == 0)
    requires s0.moved
    ensures Sweep(s0, n, v, i, j).moved
    decreases i, j
  {
    if j == 0 {
      if i > 0 { MovedStays(s0, n, v, i - 1, n); }
    } else {
      MovedStays(s0, n, v, i, j - 1);
    }
  }

  /**
   * A traversal that moves no tile changes nothing: not the board, not the score, and
   * it performs no merge.
   */
  lemma {:induction false} UnmovedSweepChangesNothing(s0: Progress, n: nat, v: Position, i: nat, j: nat)
    requires IsBoard(s0.board, n) && IsVector(v)
    requires i <= n && j <= n && (i == n ==> j == 0)
    requires !Sweep(s0, n, v, i, j).moved
    ensures Sweep(s0, n, v, i, j) == s0
    decreases i, j
  {
    if j == 0 {
      if i > 0 { UnmovedSweepChangesNothing(s0, n, v, i - 1, n); }
    } else {
      var s := Sweep(s0, n, v, i, j - 1);
      var p := CellAt(n, v, i, j - 1);
      assert !s.moved;
      UnmovedStepChangesNothing(s, n, v, p);
      UnmovedSweepChangesNothing(s0, n, v, i, j - 1);
    }
  }

  /** A step after which `moved` is still false left its state as it was. */
  lemma UnmovedStepChangesNothing(s: Progress, n: nat, v: Position, p: Position)
    requires IsBoard(s.board, n) && InBounds(n, p) && IsVector(v)
    requires !Step(s, n, v, p).moved
    ensures Step(s, n, v, p) == s
  {
    var r := Step(s, n, v, p);
    if At(s.board, n, p).Occupied? {
      var k := SlideLength(s.board, n, p, v);
      assert Along(p, v, k) == p;
      BoardsEqual(r.board, s.board, n);
    }
  }

  /**
   * Tiles are conserved: every merge removes exactly one tile from the board and a
   * slide removes none.
   */
  lemma {:induction false} SweepCount(s0: Progress, n: nat, v: Position, i: nat, j: nat)
    requires IsBoard(s0.board, n) && IsVector(v)
    requires i <= n && j <= n && (i == n ==> j == 0)
    ensures Sweep(s0, n, v, i, j).merges >= s0.merges
    ensures Count(Sweep(s0, n, v, i, j).board, n) + Sweep(s0, n, v, i, j).merges ==
            Count(s0.board, n) + s0.merges
    decreases i, j
  {
    if j == 0 {
      if i > 0 { SweepCount(s0, n, v, i - 1, n); }
    } else {
      SweepCount(s0, n, v, i, j - 1);
      StepCount(Sweep(s0, n, v, i, j - 1), n, v, CellAt(n, v, i, j - 1));
    }
  }

  lemma StepCount(s: Progress, n: nat, v: Position, p: Position)
    requires IsBoard(s.board, n) && InBounds(n, p) && IsVector(v)
    ensures Step(s, n, v, p).merges >= s.merges
    ensures Count(Step(s, n, v, p).board, n) + Step(s, n, v, p).merges == Count(s.board, n) + s.merges
  {
    var b := s.board;
    if At(b, n, p).Occupied? {
      var value := At(b, n, p).value;
      SlideLengthSpec(b, n, p, v);
      var k := SlideLength(b, n, p, v);
      var farthest := Along(p, v, k);
      var next := Add(farthest, v);
      AlongFromNext(farthest, v, 1);
      if InBounds(n, next) && At(b, n, next) == Occupied(value, false) {
        MergeCount(b, n, p, next, Occupied(InitialValue(value * 2), true));
      } else {
        SlideCount(b, n, p, farthest, Occupied(value, At(b, n, p).merged));
      }
    }
  }

  /** A merge replaces the target and clears the source: one tile fewer. */
  lemma MergeCount(b: Board, n: nat, p: Position, next: Position, c: Cell)
    requires IsBoard(b, n) && InBounds(n, p) && InBounds(n, next) && p != next
    requires At(b, n, p).Occupied? && At(b, n, next).Occupied? && c.Occupied?
    ensures Count(Set(Set(b, n, next, c), n, p, Empty), n) + 1 == Count(b, n)
  {
    var b1 := Set(b, n, next, c);
    TilesAfterSet(b, n, next, c);
    InOccupancy(b, n, next);
    InOccupancy(b, n, p);
    assert Occupancy(b1, n) == Occupancy(b, n);
    TilesAfterSet(b1, n, p, Empty);
  }

  /** A slide into its own cell or into an empty cell keeps the number of tiles. */
  lemma SlideCount(b: Board, n: nat, p: Position, farthest: Position, c: Cell)
    requires IsBoard(b, n) && InBounds(n, p) && InBounds(n, farthest)
    requires At(b, n, p).Occupied? && c.Occupied?
    requires farthest == p || At(b, n, farthest) == Empty
    ensures Count(Set(Set(b, n, p, Empty), n, farthest, c), n) == Count(b, n)
  {
    var b1 := Set(b, n, p, Empty);
    TilesAfterSet(b, n, p, Empty);
    TilesAfterSet(b1, n, farthest, c);
    InOccupancy(b, n, p);
    InOccupancy(b, n, farthest);
    if farthest == p {
      assert Occupancy(b1, n) + {p} == Occupancy(b, n);
    } else {
      assert Occupancy(b1, n) + {farthest} == (Occupancy(b, n) - {p}) + {farthest};
    }
  }

  /** Score: the gain of a move is never negative while tiles carry game values. */
  lemma {:induction false} SweepGain(s0: Progress, n: nat, v: Position, i: nat, j: nat)
    requires IsBoard(s0.board, n) && IsVector(v)
    requires i <= n && j <= n && (i == n ==> j == 0)
    requires TileValues(s0.board, n)
    ensures TileValues(Sweep(s0, n, v, i, j).board, n)
    ensures Sweep(s0, n, v, i, j).gained >= s0.gained + 4 * (Sweep(s0, n, v, i, j).merges - s0.merges)
    ensures Sweep(s0, n, v, i, j).merges >= s0.merges
    decreases i, j
  {
    if j == 0 {
      if i > 0 { SweepGain(s0, n, v, i - 1, n); }
    } else {
      SweepGain(s0, n, v, i, j - 1);
      StepGain(Sweep(s0, n, v, i, j - 1), n, v, CellAt(n, v, i, j - 1));
    }
  }

  lemma StepGain(s: Progress, n: nat, v: Position, p: Position)
    requires IsBoard(s.board, n) && InBounds(n, p) && IsVector(v)
    requires TileValues(s.board, n)
    ensures TileValues(Step(s, n, v, p).board, n)
    ensures Step(s, n, v, p).merges >= s.merges
    ensures Step(s, n, v, p).gained >= s.gained + 4 * (Step(s, n, v, p).merges - s.merges)
  {
    var b := s.board;
    if At(b, n, p).Occupied? {
      var value := At(b, n, p).value;
      assert IsTileValue(value);
      assert IsPowerOfTwo(value * 2) by {
        assert (value * 2) / 2 == value;
      }
    }
  }

  /**
   * Merge exclusivity. Only cells the traversal has already visited can hold a tile
   * made by a merge during this move, so the tile the traversal is about to move is
   * never one of them; and the merge rule itself refuses a marked target. Together: no
   * tile takes part in more than one merge per move.
   */
  lemma {:induction false} MarkedOnlyBehind(s0: Progress, n: nat, v: Position, i: nat, j: nat)
    requires IsBoard(s0.board, n) && IsVector(v) && Unmarked(s0.board, n)
    requires i <= n && j <= n && (i == n ==> j == 0)
    ensures MarkedVisited(Sweep(s0, n, v, i, j).board, n, v, i, j)
    decreases i, j
  {
    if j == 0 {
      if i > 0 {
        MarkedOnlyBehind(s0, n, v, i - 1, n);
      }
    } else {
      MarkedOnlyBehind(s0, n, v, i, j - 1);
      StepMarks(Sweep(s0, n, v, i, j - 1), n, v, i, j - 1);
    }
  }

  /** Every tile marked as made by a merge sits in a cell visited before (i, j). */
  ghost predicate MarkedVisited(b: Board, n: nat, v: Position, i: int, j: int)
    requires IsBoard(b, n)
  {
    forall q {:trigger At(b, n, q)} :: InBounds(n, q) && At(b, n, q).Occupied? && At(b, n, q).merged ==> Visited(n, v, q, i, j)
  }

  /** The step at (i, j) marks, if anything, a cell ahead of (i, j) in the traversal. */
  lemma StepMarks(s: Progress, n: nat, v: Position, i: nat, j: nat)
    requires IsBoard(s.board, n) && IsVector(v) && i < n && j < n
    requires MarkedVisited(s.board, n, v, i, j)
    ensures MarkedVisited(Step(s, n, v, CellAt(n, v, i, j)).board, n, v, i, j + 1)
  {
    var p := CellAt(n, v, i, j);
    var b := s.board;
    var r := Step(s, n, v, p).board;
    if At(b, n, p).Occupied? {
      SlideLengthSpec(b, n, p, v);
      var k := SlideLength(b, n, p, v);
      var farthest := Along(p, v, k);
      var next := Add(farthest, v);
      AlongFromNext(farthest, v, 1);
      assert !Visited(n, v, p, i, j);
      if InBounds(n, next) && At(b, n, next) == Occupied(At(b, n, p).value, false) {
        assert next == Along(p, v, k + 1);
        assert Visited(n, v, next, i, j);
        forall q | InBounds(n, q) && At(r, n, q).Occupied? && At(r, n, q).merged
          ensures Visited(n, v, q, i, j + 1)
        {
          if q != next {
            assert At(r, n, q) == At(b, n, q);
          }
        }
      } else {
        forall q | InBounds(n, q) && At(r, n, q).Occupied? && At(r, n, q).merged
          ensures Visited(n, v, q, i, j + 1)
        {
          if q != farthest {
            assert At(r, n, q) == At(b, n, q);
          }
        }
      }
    }
  }

  /** The tile the traversal moves at (i, j) was not made by a merge in this move. */
  lemma MovingTileUnmarked(s0: Progress, n: nat, v: Position, i: nat, j: nat)
    requires IsBoard(s0.board, n) && IsVector(v) && Unmarked(s0.board, n)
    requires i < n && j < n
    ensures InBounds(n, CellAt(n, v, i, j))
    ensures At(Sweep(s0, n, v, i, j).board, n, CellAt(n, v, i, j)).Occupied? ==>
            !At(Sweep(s0, n, v, i, j).board, n, CellAt(n, v, i, j)).merged
  {
    MarkedOnlyBehind(s0, n, v, i, j);
  }

  /**
   * A move that moves something always leaves an empty cell, so the random tile that
   * follows it always finds a place.
   */
  lemma {:induction false} MovedLeavesRoom(s0: Progress, n: nat, v: Position, i: nat, j: nat)
    requires IsBoard(s0.board, n) && IsVector(v)
    requires i <= n && j <= n && (i == n ==> j == 0)
    requires !s0.moved
    ensures Sweep(s0, n, v, i, j).moved ==> HasEmpty(Sweep(s0, n, v, i, j).board, n)
    decreases i, j
  {
    if j == 0 {
      if i > 0 { MovedLeavesRoom(s0, n, v, i - 1, n); }
    } else {
      MovedLeavesRoom(s0, n, v, i, j - 1);
      StepLeavesRoom(Sweep(s0, n, v, i, j - 1), n, v, CellAt(n, v, i, j - 1));
    }
  }

  /** A step either leaves the state as it was or empties the cell it started from. */
  lemma StepLeavesRoom(s: Progress, n: nat, v: Position, p: Position)
    requires IsBoard(s.board, n) && InBounds(n, p) && IsVector(v)
    requires s.moved ==> HasEmpty(s.board, n)
    ensures Step(s, n, v, p).moved ==> HasEmpty(Step(s, n, v, p).board, n)
  {
    var r := Step(s, n, v, p);
    var b := s.board;
    if At(b, n, p).Occupied? {
      var k := SlideLength(b, n, p, v);
      var farthest := Along(p, v, k);
      var next := Add(farthest, v);
      if InBounds(n, next) && At(b, n, next) == Occupied(At(b, n, p).value, false) {
        AlongFromNext(farthest, v, 1);
        AlongFromNext(p, v, k + 1);
        assert next != p;
        assert At(r.board, n, p) == Empty;
      } else if farthest != p {
        assert At(r.board, n, p) == Empty;
      } else {
        BoardsEqual(r.board, b, n);
      }
    }
  }

  /**
   * Game over is final: on a full board where no two neighbours are equal, no
   * direction moves any tile, so every move changes nothing.
   */
  lemma {:induction false} StuckBoardCannotMove(s0: Progress, n: nat, v: Position, i: nat, j: nat)
    requires IsBoard(s0.board, n) && IsVector(v) && !s0.moved
    requires !HasEmpty(s0.board, n) && !HasMatch(s0.board, n)
    requires i <= n && j <= n && (i == n ==> j == 0)
    ensures Sweep(s0, n, v, i, j) == s0
    decreases i, j
  {
    if j == 0 {
      if i > 0 { StuckBoardCannotMove(s0, n, v, i - 1, n); }
    } else {
      StuckBoardCannotMove(s0, n, v, i, j - 1);
      StuckStep(s0, n, v, CellAt(n, v, i, j - 1));
    }
  }

  /** On a stuck board the tile at p neither slides nor merges. */
  lemma StuckStep(s: Progress, n: nat, v: Position, p: Position)
    requires IsBoard(s.board, n) && InBounds(n, p) && IsVector(v) && !s.moved
    requires !HasEmpty(s.board, n) && !HasMatch(s.board, n)
    ensures Step(s, n, v, p) == s
  {
    var b := s.board;
    assert At(b, n, p).Occupied?;
    var q := Add(p, v);
    assert !Open(b, n, q);
    assert SlideLength(b, n, p, v) == 0;
    AlongFromNext(p, v, 1);
    VectorOfSomeDirection(v);
    var d: Direction :| GetVector(d) == v;
    assert !MatchAt(b, n, p, d);
    UnmovedStepChangesNothing(s, n, v, p);
  }

  /** `Prepared` keeps emptiness and values, so it keeps a board stuck. */
  lemma PreparedStuck(b: Board, n: nat)
    requires IsBoard(b, n) && !HasEmpty(b, n) && !HasMatch(b, n)
    ensures !HasEmpty(Prepared(b, n), n) && !HasMatch(Prepared(b, n), n)
  {
    var r := Prepared(b, n);
    forall p, d: Direction
      ensures !MatchAt(r, n, p, d)
    {
      assert !MatchAt(b, n, p, d);
    }
  }

  /** No direction moves a tile on a stuck board. */
  lemma StuckBoardMoveIsNoop(b: Board, n: nat, d: Direction)
    requires IsBoard(b, n) && !HasEmpty(b, n) && !HasMatch(b, n)
    ensures !Slide(b, n, GetVector(d)).moved
    ensures Slide(b, n, GetVector(d)).board == Prepared(b, n)
    ensures Slide(b, n, GetVector(d)).gained == 0
  {
    PreparedStuck(b, n);
    StuckBoardCannotMove(Start(b, n), n, GetVector(d), n, 0);
  }
}
