/**
 * `Minesweeper`, the game: a board of `height` rows and `width` columns held as a 2-D array
 * of booleans, the set of mine cells, and the mines the player has found.
 */
module MinesweeperGame {
  import opened SetCounting
  import opened Grid

  /**
   * The mines the placement loop puts down when the random generator yields the cells of
   * `draws` in turn: a drawn cell that already holds a mine is skipped, and the loop stops
   * once `count` mines are placed (or the draws run out).
   */
  function PlaceMines(draws: seq<Cell>, count: nat, placed: set<Cell>): set<Cell>
    decreases |draws|
  {
    if |placed| == count || draws == [] then placed
    else PlaceMines(draws[1..], count, placed + {draws[0]})
  }

  /**
   * Placement never puts down more than `count` mines, places only drawn cells, and places
   * exactly `count` unless the draws ran out first.
   */
  lemma {:induction false} PlaceMinesCount(draws: seq<Cell>, count: nat, placed: set<Cell>)
    requires |placed| <= count
    ensures placed <= PlaceMines(draws, count, placed) <= placed + set c | c in draws
    ensures |PlaceMines(draws, count, placed)| <= count
    ensures |PlaceMines(draws, count, placed)| == count
         || PlaceMines(draws, count, placed) == placed + set c | c in draws
    decreases |draws|
  {
    if |placed| != count && draws != [] {
      var next := placed + {draws[0]};
      PlaceMinesCount(draws[1..], count, next);
      assert (set c | c in draws) == {draws[0]} + set c | c in draws[1..];
    }
  }

  /** When the draws hold at least `count` distinct cells, exactly `count` mines are placed. */
  lemma PlaceMinesEnough(draws: seq<Cell>, count: nat)
    requires count <= |set c | c in draws|
    ensures |PlaceMines(draws, count, {})| == count
  {
    PlaceMinesCount(draws, count, {});
  }

  /** One more draw: a cell that already holds a mine changes nothing. */
  lemma PlaceMinesStep(draws: seq<Cell>, k: int, count: nat, placed: set<Cell>)
    requires 0 <= k < |draws| && |placed| != count
    ensures draws[k] !in placed ==>
      PlaceMines(draws[k..], count, placed) == PlaceMines(draws[k + 1..], count, placed + {draws[k]})
    ensures draws[k] in placed ==>
      PlaceMines(draws[k..], count, placed) == PlaceMines(draws[k + 1..], count, placed)
  {
    assert draws[k..][1..] == draws[k + 1..];
    if draws[k] in placed {
      assert placed + {draws[k]} == placed;
    }
  }

  /** Python's reading of a possibly negative index into a list of length `n`. */
  function PyIndex(i: int, n: int): int {
    if i < 0 then i + n else i
  }

  /** `nearby_mines` never counts more than the eight neighbours. */
  lemma NearbyAtMostEight(mines: set<Cell>, height: int, width: int, cell: Cell)
    ensures |NearbyMineCells(mines, height, width, cell)| <= 8
  {
    var (a, b) := cell;
    var ring := {(a - 1, b - 1), (a - 1, b), (a - 1, b + 1), (a, b - 1),
                 (a, b + 1), (a + 1, b - 1), (a + 1, b), (a + 1, b + 1)};
    forall c | c in NearbyMineCells(mines, height, width, cell) ensures c in ring {
      NearbyMineCellsMembers(mines, height, width, cell, c);
    }
    SubsetCardinality(NearbyMineCells(mines, height, width, cell), ring);
  }

  /**
   * The mines that the nested loops of `nearby_mines` have counted once they reach row `r`,
   * column `c` of the 3×3 window.
   */
  function CountedBefore(mines: set<Cell>, height: int, width: int, cell: Cell, r: int, c: int): set<Cell>
  {
    set i, j | cell.0 - 1 <= i <= cell.0 + 1 && cell.1 - 1 <= j <= cell.1 + 1
               && (i < r || (i == r && j < c))
               && (i, j) != cell && 0 <= i < height && 0 <= j < width && (i, j) in mines
      :: (i, j)
  }

  lemma CountedBeforeNext(mines: set<Cell>, height: int, width: int, cell: Cell, r: int, c: int)
    requires cell.0 - 1 <= r <= cell.0 + 1 && cell.1 - 1 <= c <= cell.1 + 1
    ensures CountedBefore(mines, height, width, cell, r, c + 1)
         == CountedBefore(mines, height, width, cell, r, c)
            + (if (r, c) != cell && 0 <= r < height && 0 <= c < width && (r, c) in mines then {(r, c)} else {})
    ensures (r, c) !in CountedBefore(mines, height, width, cell, r, c)
  {
  }

  /** One more cell of the window, in the accumulator form of the loop in `nearby_mines`. */
  lemma CountedStep(mines: set<Cell>, height: int, width: int, cell: Cell, r: int, c: int, count: int)
    requires cell.0 - 1 <= r <= cell.0 + 1 && cell.1 - 1 <= c <= cell.1 + 1
    requires count == |CountedBefore(mines, height, width, cell, r, c)|
    ensures (r, c) != cell && 0 <= r < height && 0 <= c < width && (r, c) in mines ==>
      count + 1 == |CountedBefore(mines, height, width, cell, r, c + 1)|
    ensures !((r, c) != cell && 0 <= r < height && 0 <= c < width && (r, c) in mines) ==>
      count == |CountedBefore(mines, height, width, cell, r, c + 1)|
  {
    CountedBeforeNext(mines, height, width, cell, r, c);
  }

  lemma CountedBeforeRow(mines: set<Cell>, height: int, width: int, cell: Cell, r: int)
    ensures CountedBefore(mines, height, width, cell, r, cell.1 + 2)
         == CountedBefore(mines, height, width, cell, r + 1, cell.1 - 1)
  {
  }

  lemma CountedBeforeAll(mines: set<Cell>, height: int, width: int, cell: Cell)
    ensures CountedBefore(mines, height, width, cell, cell.0 + 2, cell.1 - 1)
         == NearbyMineCells(mines, height, width, cell)
  {
  }

  class Minesweeper {
    const height: nat
    const width: nat
    /** The cells that hold a mine. */
    var mines: set<Cell>
    /** `board[i, j]` tells whether cell (i, j) holds a mine. */
    var board: array2<bool>
    /** The mines the player has flagged. */
    var minesFound: set<Cell>

    /** The board has the game's dimensions and marks exactly the mine cells. */
    ghost predicate Valid()
      reads this, board
    {
      board.Length0 == height && board.Length1 == width
      && (forall i, j :: 0 <= i < height && 0 <= j < width ==> (board[i, j] <==> (i, j) in mines))
      && (forall c :: c in mines ==> InBounds(c, height, width))
    }

    /**
     * A board of `height` rows and `width` columns with mines at the cells the random
     * generator yields, here the cells of `draws` in turn.
     */
    constructor (height: nat, width: nat, count: nat, draws: seq<Cell>)
      requires forall k :: 0 <= k < |draws| ==> InBounds(draws[k], height, width)
      ensures Valid() && fresh(board)
      ensures this.height == height && this.width == width
      ensures mines == PlaceMines(draws, count, {})
      ensures |mines| <= count && (|mines| == count || mines == set c | c in draws)
      ensures minesFound == {}
    {
      this.height := height;
      this.width := width;
      var b := new bool[height, width]((i, j) => false);
      var placed := AddMines(b, count, draws);
      mines := placed;
      board := b;
      minesFound := {};
      PlaceMinesCount(draws, count, {});
    }

    /**
     * The placement loop on an empty board `b`: draws cells in turn and puts a mine on each
     * drawn cell that has none, until `count` mines are placed or the draws run out.
     */
    static method AddMines(b: array2<bool>, count: nat, draws: seq<Cell>) returns (placed: set<Cell>)
      requires forall k :: 0 <= k < |draws| ==> InBounds(draws[k], b.Length0, b.Length1)
      requires forall i, j :: 0 <= i < b.Length0 && 0 <= j < b.Length1 ==> !b[i, j]
      modifies b
      ensures placed == PlaceMines(draws, count, {})
      ensures forall i, j :: 0 <= i < b.Length0 && 0 <= j < b.Length1 ==> (b[i, j] <==> (i, j) in placed)
      ensures forall c :: c in placed ==> InBounds(c, b.Length0, b.Length1)
    {
      placed := {};
      var k := 0;
      while |placed| != count && k < |draws|
        invariant 0 <= k <= |draws|
        invariant |placed| <= count
        invariant PlaceMines(draws[k..], count, placed) == PlaceMines(draws, count, {})
        invariant forall i, j :: 0 <= i < b.Length0 && 0 <= j < b.Length1 ==> (b[i, j] <==> (i, j) in placed)
        invariant forall c :: c in placed ==> InBounds(c, b.Length0, b.Length1)
      {
        var (i, j) := draws[k];
        PlaceMinesStep(draws, k, count, placed);
        if !b[i, j] {
          placed := placed + {(i, j)};
          b[i, j] := true;
        }
        k := k + 1;
      }
    }

    /** Whether `cell` holds a mine; negative indices count from the end, as in Python. */
    function IsMine(cell: Cell): (r: bool)
      reads this, board
      requires Valid()
      requires -(height as int) <= cell.0 < height && -(width as int) <= cell.1 < width
      ensures r <==> (PyIndex(cell.0, height), PyIndex(cell.1, width)) in mines
    {
      board[PyIndex(cell.0, height), PyIndex(cell.1, width)]
    }

    /** The number of mines within one row and one column of `cell`, the cell itself excluded. */
    method NearbyMines(cell: Cell) returns (count: nat)
      requires Valid()
      ensures count == |NearbyMineCells(mines, height, width, cell)|
      ensures count <= 8
    {
      count := 0;
      for i := cell.0 - 1 to cell.0 + 2
        invariant count == |CountedBefore(mines, height, width, cell, i, cell.1 - 1)|
      {
        for j := cell.1 - 1 to cell.1 + 2
          invariant count == |CountedBefore(mines, height, width, cell, i, j)|
        {
          CountedStep(mines, height, width, cell, i, j, count);
          if (i, j) != cell {
            if 0 <= i < height && 0 <= j < width {
              if board[i, j] {
                count := count + 1;
              }
            }
          }
        }
        CountedBeforeRow(mines, height, width, cell, i);
      }
      CountedBeforeAll(mines, height, width, cell);
      NearbyAtMostEight(mines, height, width, cell);
    }

    /** The player has won once the flagged cells are exactly the mines. */
    function Won(): (won: bool)
      reads this
      ensures won <==> (forall c :: c in mines <==> c in minesFound)
    {
      minesFound == mines
    }
  }
}
