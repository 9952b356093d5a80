/** The optional value a Python function returns as `None` or a value. */
module Wrappers {
  datatype Option<T> = None | Some(value: T)
}

/** Cardinality facts about finite sets used by the counting arguments. */
module SetCounting {

  lemma SubsetCardinality<T>(a: set<T>, b: set<T>)
    requires a <= b
    ensures |a| <= |b|
    ensures |a| == |b| ==> a == b
  {
    assert b == a + (b - a);
    assert a !! (b - a);
    if |a| == |b| {
      assert |b - a| == 0;
      assert b - a == {};
    }
  }

  /** Splitting `a` by a set `s` that it may overlap. */
  lemma SplitCardinality<T>(a: set<T>, s: set<T>)
    ensures |a| == |a - s| + |a * s|
  {
    assert a == (a - s) + (a * s);
    assert (a - s) !! (a * s);
  }
}

/** Board cells and the neighbourhood of a cell. */
module Grid {

  /** A cell as (row, column). Cells are plain integer pairs and may lie off the board. */
  type Cell = (int, int)

  predicate InBounds(c: Cell, height: int, width: int) {
    0 <= c.0 < height && 0 <= c.1 < width
  }

  /** `c` lies within one row and one column of `centre` (the centre itself included). */
  predicate Adjacent(centre: Cell, c: Cell) {
    centre.0 - 1 <= c.0 <= centre.0 + 1 && centre.1 - 1 <= c.1 <= centre.1 + 1
  }

  /** The mines that `nearby_mines` counts: in bounds, adjacent to `cell`, not `cell` itself. */
  function NearbyMineCells(mines: set<Cell>, height: int, width: int, cell: Cell): set<Cell>
  {
    set i, j | cell.0 - 1 <= i <= cell.0 + 1 && cell.1 - 1 <= j <= cell.1 + 1
                && (i, j) != cell && 0 <= i < height && 0 <= j < width && (i, j) in mines
      :: (i, j)
  }

  lemma NearbyMineCellsMembers(mines: set<Cell>, height: int, width: int, cell: Cell, c: Cell)
    ensures c in NearbyMineCells(mines, height, width, cell)
        <==> Adjacent(cell, c) && c != cell && InBounds(c, height, width) && c in mines
  {
    if Adjacent(cell, c) && c != cell && InBounds(c, height, width) && c in mines {
      var (i, j) := c;
      assert (i, j) in NearbyMineCells(mines, height, width, cell);
    }
  }
}
