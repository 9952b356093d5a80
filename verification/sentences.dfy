/** A `Sentence` of the Minesweeper AI: a set of cells and how many of them are mines. */
module Sentences {
  import opened Wrappers
  import opened SetCounting
  import opened Grid

  /**
   * A sentence is a value: its constructor copies the given cells and two sentences are equal
   * when their cells and counts are, which is Dafny's datatype equality. The in-place updates
   * `mark_mine` and `mark_safe` return the updated sentence, which the knowledge base stores
   * in place of the old one.
   */
  datatype Sentence = Sentence(cells: set<Cell>, count: int) {

    /** The sentence is a true statement about the mine placement `mines`. */
    ghost predicate TrueOf(mines: set<Cell>) {
      |cells * mines| == count
    }

    /** All cells of the sentence, when the sentence says they are all mines. */
    function KnownMines(): (r: Option<set<Cell>>)
      ensures r.Some? <==> cells != {} && |cells| == count
      ensures r.Some? ==> r.value == cells
    {
      if cells != {} && |cells| == count then Some(cells) else None
    }

    /** All cells of the sentence, when the sentence says none of them is a mine. */
    function KnownSafes(): (r: Option<set<Cell>>)
      ensures r.Some? <==> cells != {} && count == 0
      ensures r.Some? ==> r.value == cells
    {
      if cells != {} && count == 0 then Some(cells) else None
    }

    /** Resolves `cell` as a mine; Python's `set.remove` raises unless `cell` is present. */
    function MarkMine(cell: Cell): (s: Sentence)
      requires cell in cells
      ensures cell !in s.cells && s.cells + {cell} == cells
      ensures |s.cells| == |cells| - 1 && s.count == count - 1
    {
      Sentence(cells - {cell}, count - 1)
    }

    /** Resolves `cell` as safe; a cell that is not in the sentence is ignored. */
    function MarkSafe(cell: Cell): (s: Sentence)
      ensures cell !in s.cells && s.cells <= cells && cells <= s.cells + {cell}
      ensures s.count == count
    {
      if cell in cells then Sentence(cells - {cell}, count) else this
    }
  }

  /** A true sentence whose count equals its size names only mines. */
  lemma {:induction false} AllMinesWhenFull(s: Sentence, mines: set<Cell>)
    requires s.TrueOf(mines) && |s.cells| == s.count
    ensures s.cells <= mines
  {
    SubsetCardinality(s.cells * mines, s.cells);
  }

  /** A true sentence with count zero names no mine. */
  lemma NoMinesWhenZero(s: Sentence, mines: set<Cell>)
    requires s.TrueOf(mines) && s.count == 0
    ensures s.cells !! mines
  {
    assert |s.cells * mines| == 0;
    assert s.cells * mines == {};
    forall c | c in s.cells ensures c !in mines {
      assert c !in s.cells * mines;
    }
  }

  lemma KnownMinesSound(s: Sentence, mines: set<Cell>)
    requires s.TrueOf(mines) && s.KnownMines().Some?
    ensures s.KnownMines().value <= mines
  {
    AllMinesWhenFull(s, mines);
  }

  lemma KnownSafesSound(s: Sentence, mines: set<Cell>)
    requires s.TrueOf(mines) && s.KnownSafes().Some?
    ensures s.KnownSafes().value !! mines
  {
    NoMinesWhenZero(s, mines);
  }

  /** Marking a real mine keeps a true sentence true. */
  lemma MarkMineKeepsTruth(s: Sentence, cell: Cell, mines: set<Cell>)
    requires cell in s.cells && cell in mines && s.TrueOf(mines)
    ensures s.MarkMine(cell).TrueOf(mines)
  {
    assert (s.cells - {cell}) * mines == s.cells * mines - {cell};
  }

  /** Marking a cell that is not a mine keeps a true sentence true. */
  lemma MarkSafeKeepsTruth(s: Sentence, cell: Cell, mines: set<Cell>)
    requires cell !in mines && s.TrueOf(mines)
    ensures s.MarkSafe(cell).TrueOf(mines)
  {
    if cell in s.cells {
      assert (s.cells - {cell}) * mines == s.cells * mines;
    }
  }

  lemma MarkSafeIdempotent(s: Sentence, cell: Cell)
    ensures s.MarkSafe(cell).MarkSafe(cell) == s.MarkSafe(cell)
  {
  }
}
