/**
 * The state of the Minesweeper AI as a value, each of its operations as a function on that
 * value, and the proof that the AI is sound: told true neighbour counts on a board of at
 * most 8×8, it never marks a mine as safe or a safe cell as a mine, and every sentence it
 * keeps stays true.
 */
module Inference {
  import opened Grid
  import opened Sentences
  import opened KnowledgeBase

  /** The fields of `MinesweeperAI` that its methods change. */
  datatype AIState = AIState(movesMade: set<Cell>, mines: set<Cell>, safes: set<Cell>, knowledge: seq<Sentence>)

  /**
   * The cells of the sentence `add_knowledge` builds around `cell`: the cell and its
   * neighbours inside the hard-coded grid [0,8)×[0,8) that have not been played.
   */
  function SentenceCells(cell: Cell, movesMade: set<Cell>): set<Cell>
  {
    set i, j | cell.0 - 1 <= i <= cell.0 + 1 && cell.1 - 1 <= j <= cell.1 + 1
               && 0 <= i < 8 && 0 <= j < 8 && (i, j) !in movesMade
      :: (i, j)
  }

  lemma SentenceCellsMembers(cell: Cell, movesMade: set<Cell>, c: Cell)
    ensures c in SentenceCells(cell, movesMade) <==> Adjacent(cell, c) && InBounds(c, 8, 8) && c !in movesMade
  {
    if Adjacent(cell, c) && InBounds(c, 8, 8) && c !in movesMade {
      var (i, j) := c;
      assert (i, j) in SentenceCells(cell, movesMade);
    }
  }

  /** `MinesweeperAI.mark_mine`. */
  function MarkMineSpec(st: AIState, cell: Cell): (r: AIState)
    ensures r.movesMade == st.movesMade && r.safes == st.safes && r.mines == st.mines + {cell}
    ensures |r.knowledge| == |st.knowledge|
    ensures forall k :: 0 <= k < |r.knowledge| ==> r.knowledge[k].cells == st.knowledge[k].cells - {cell}
    ensures forall k :: 0 <= k < |r.knowledge| ==>
      r.knowledge[k].count == st.knowledge[k].count - (if cell in st.knowledge[k].cells then 1 else 0)
  {
    st.(mines := st.mines + {cell}, knowledge := MarkMineAll(st.knowledge, cell))
  }

  /** `MinesweeperAI.mark_safe`: nothing happens to a cell that has been played. */
  function MarkSafeSpec(st: AIState, cell: Cell): (r: AIState)
    ensures cell in st.movesMade ==> r == st
    ensures cell !in st.movesMade ==>
      r.movesMade == st.movesMade && r.mines == st.mines && r.safes == st.safes + {cell}
      && |r.knowledge| == |st.knowledge|
      && forall k :: 0 <= k < |r.knowledge| ==>
           r.knowledge[k].cells == st.knowledge[k].cells - {cell}
           && r.knowledge[k].count == st.knowledge[k].count
  {
    if cell in st.movesMade then st
    else st.(safes := st.safes + {cell}, knowledge := MarkSafeAll(st.knowledge, cell))
  }

  /** `mark_mine` applied to every cell of `cells`, in any order. */
  function MarkMinesSpec(st: AIState, cells: set<Cell>): AIState
  {
    st.(mines := st.mines + cells, knowledge := MarkMinesAll(st.knowledge, cells))
  }

  /** `mark_safe` applied to every cell of `cells`, in any order; played cells are skipped. */
  function MarkSafesSpec(st: AIState, cells: set<Cell>): AIState
  {
    var unplayed := cells - st.movesMade;
    st.(safes := st.safes + unplayed, knowledge := MarkSafesAll(st.knowledge, unplayed))
  }

  /**
   * `MinesweeperAI.add_knowledge(cell, count)`, step by step: record the move, the
   * no-op `mark_safe` of the played cell, the new sentence, the direct conclusions from it,
   * subset inference, flagging and removal of resolved sentences, marking every concluded
   * mine and safe cell, and the clean-up of empty sentences.
   */
  function AddKnowledgeSpec(st: AIState, cell: Cell, count: int): (r: AIState)
    ensures r.movesMade == st.movesMade + {cell}
    ensures st.mines <= r.mines && st.safes <= r.safes
    ensures r.safes - st.safes !! r.movesMade
  {
    var st1 := MarkSafeSpec(st.(movesMade := st.movesMade + {cell}), cell);
    var cells := SentenceCells(cell, st1.movesMade);
    var st2 := st1.(knowledge := st1.knowledge + [Sentence(cells, count)]);
    var st3 := if cells != {} && |cells| == count then MarkMinesSpec(st2, cells) else st2;
    var st4 := if cells != {} && count == 0 then MarkSafesSpec(st3, cells) else st3;
    var derived := Derived(st4.knowledge);
    var kb5 := st4.knowledge + InferredFrom(derived);
    var newMines := MinesFrom(derived) + MinesFrom(kb5);
    var newSafes := SafesFrom(derived) + SafesFrom(kb5);
    RemoveFlaggedKeepsRest(kb5);
    var st6 := st4.(knowledge := RemoveEach(kb5, Flagged(kb5)));
    var st7 := if newMines != {} then MarkMinesSpec(st6, newMines) else st6;
    var st8 := if newSafes != {} then MarkSafesSpec(st7, newSafes) else st7;
    st8.(knowledge := PruneFrom(st8.knowledge, 0))
  }

  // ---------------------------------------------------------------------------------------
  // Soundness

  /** What the AI believes agrees with the real mine placement `truth`. */
  ghost predicate Consistent(st: AIState, truth: set<Cell>) {
    st.mines <= truth && st.safes !! truth && st.movesMade !! truth && AllTrueOf(st.knowledge, truth)
  }

  lemma AllTrueOfSubMultiset(a: seq<Sentence>, b: seq<Sentence>, truth: set<Cell>)
    requires multiset(a) <= multiset(b) && AllTrueOf(b, truth)
    ensures AllTrueOf(a, truth)
  {
    forall s | s in a ensures s.TrueOf(truth) {
      assert s in multiset(a);
      assert s in multiset(b);
    }
  }

  lemma MarkMinesSpecSound(st: AIState, cells: set<Cell>, truth: set<Cell>)
    requires Consistent(st, truth) && cells <= truth
    ensures Consistent(MarkMinesSpec(st, cells), truth)
  {
    MarkMinesAllKeepsTruth(st.knowledge, cells, truth);
  }

  lemma MarkSafesSpecSound(st: AIState, cells: set<Cell>, truth: set<Cell>)
    requires Consistent(st, truth) && cells !! truth
    ensures Consistent(MarkSafesSpec(st, cells), truth)
  {
    MarkSafesAllKeepsTruth(st.knowledge, cells - st.movesMade, truth);
  }

  /**
   * On a board no larger than 8×8 whose played cells are not mines, the new sentence's
   * cells hold exactly the mines that `nearby_mines` counts.
   */
  lemma NewSentenceSeesNearbyMines(cell: Cell, movesMade: set<Cell>, truth: set<Cell>, height: int, width: int)
    requires cell in movesMade && movesMade !! truth
    requires height <= 8 && width <= 8 && forall c :: c in truth ==> InBounds(c, height, width)
    ensures SentenceCells(cell, movesMade) * truth == NearbyMineCells(truth, height, width, cell)
  {
    forall c ensures c in SentenceCells(cell, movesMade) * truth <==> c in NearbyMineCells(truth, height, width, cell) {
      SentenceCellsMembers(cell, movesMade, c);
      NearbyMineCellsMembers(truth, height, width, cell, c);
    }
  }

  /**
   * Soundness of `add_knowledge`: when the clicked cell is not a mine and `count` is its
   * true neighbour count on a board of at most 8×8, consistency with the real placement is
   * kept: no mine is marked safe, no safe cell is marked as a mine, every sentence stays true.
   */
  lemma AddKnowledgeSound(st: AIState, cell: Cell, count: int, truth: set<Cell>, height: int, width: int)
    requires Consistent(st, truth) && cell !in truth
    requires height <= 8 && width <= 8 && forall c :: c in truth ==> InBounds(c, height, width)
    requires count == |NearbyMineCells(truth, height, width, cell)|
    ensures Consistent(AddKnowledgeSpec(st, cell, count), truth)
  {
    var st1 := MarkSafeSpec(st.(movesMade := st.movesMade + {cell}), cell);
    assert st1 == st.(movesMade := st.movesMade + {cell});
    assert Consistent(st1, truth);
    var cells := SentenceCells(cell, st1.movesMade);
    NewSentenceSeesNearbyMines(cell, st1.movesMade, truth, height, width);
    var s := Sentence(cells, count);
    assert s.TrueOf(truth);
    var st2 := st1.(knowledge := st1.knowledge + [s]);
    assert Consistent(st2, truth);
    var st3 := if cells != {} && |cells| == count then MarkMinesSpec(st2, cells) else st2;
    if cells != {} && |cells| == count {
      AllMinesWhenFull(s, truth);
      MarkMinesSpecSound(st2, cells, truth);
    }
    var st4 := if cells != {} && count == 0 then MarkSafesSpec(st3, cells) else st3;
    if cells != {} && count == 0 {
      NoMinesWhenZero(s, truth);
      MarkSafesSpecSound(st3, cells, truth);
    }
    assert Consistent(st4, truth);
    var derived := Derived(st4.knowledge);
    DerivedKeepsTruth(st4.knowledge, truth);
    InferredFromSpec(derived);
    var kb5 := st4.knowledge + InferredFrom(derived);
    assert AllTrueOf(kb5, truth);
    ConclusionsSound(derived, truth);
    ConclusionsSound(kb5, truth);
    var newMines := MinesFrom(derived) + MinesFrom(kb5);
    var newSafes := SafesFrom(derived) + SafesFrom(kb5);
    RemoveFlaggedKeepsRest(kb5);
    var kb6 := RemoveEach(kb5, Flagged(kb5));
    AllTrueOfSubMultiset(kb6, kb5, truth);
    var st6 := st4.(knowledge := kb6);
    var st7 := if newMines != {} then MarkMinesSpec(st6, newMines) else st6;
    MarkMinesSpecSound(st6, newMines, truth);
    var st8 := if newSafes != {} then MarkSafesSpec(st7, newSafes) else st7;
    MarkSafesSpecSound(st7, newSafes, truth);
    PruneKeepsNonEmpty(st8.knowledge, 0);
    AllTrueOfSubMultiset(PruneFrom(st8.knowledge, 0), st8.knowledge, truth);
    assert AddKnowledgeSpec(st, cell, count) == st8.(knowledge := PruneFrom(st8.knowledge, 0));
  }

  /**
   * Why soundness needs the board to fit in 8×8: on a 9×9 board the mine at (8, 0) next to
   * (7, 0) lies outside the hard-coded grid, so the first sentence about (7, 0) is false.
   */
  lemma HardCodedGridMissesMines()
    ensures |NearbyMineCells({(8, 0)}, 9, 9, (7, 0))| == 1
    ensures !Sentence(SentenceCells((7, 0), {(7, 0)}), 1).TrueOf({(8, 0)})
  {
    forall c ensures c in NearbyMineCells({(8, 0)}, 9, 9, (7, 0)) <==> c == (8, 0) {
      NearbyMineCellsMembers({(8, 0)}, 9, 9, (7, 0), c);
    }
    assert NearbyMineCells({(8, 0)}, 9, 9, (7, 0)) == {(8, 0)};
    SentenceCellsMembers((7, 0), {(7, 0)}, (8, 0));
    assert SentenceCells((7, 0), {(7, 0)}) * {(8, 0)} == {};
  }
}
