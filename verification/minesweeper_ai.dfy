/**
 * `MinesweeperAI`, the player: a class whose methods update its sets and its list of
 * sentences in place. Each method is proved to leave the object in the state that the
 * matching function of module `Inference` computes from the old state.
 */
module MinesweeperPlayer {
  import opened Wrappers
  import opened Grid
  import opened Sentences
  import opened KnowledgeBase
  import opened Inference

  class MinesweeperAI {
    const height: int
    const width: int
    /** Cells that have been clicked on. */
    var movesMade: set<Cell>
    /** Cells known to be mines. */
    var mines: set<Cell>
    /** Cells known to be safe. */
    var safes: set<Cell>
    /** Sentences about the game known to be true. */
    var knowledge: seq<Sentence>

    function State(): AIState
      reads this
    {
      AIState(movesMade, mines, safes, knowledge)
    }

    constructor (height: int, width: int)
      ensures this.height == height && this.width == width
      ensures State() == AIState({}, {}, {}, [])
    {
      this.height := height;
      this.width := width;
      movesMade := {};
      mines := {};
      safes := {};
      knowledge := [];
    }

    /** Records `cell` as a mine and resolves it in every sentence that mentions it. */
    method MarkMine(cell: Cell)
      modifies this
      ensures State() == MarkMineSpec(old(State()), cell)
    {
      mines := mines + {cell};
      ghost var target := MarkMineAll(knowledge, cell);
      var k := 0;
      while k < |knowledge|
        invariant 0 <= k <= |knowledge| == |target|
        invariant mines == old(mines) + {cell} && safes == old(safes) && movesMade == old(movesMade)
        invariant forall m :: 0 <= m < k ==> knowledge[m] == target[m]
        invariant forall m :: k <= m < |knowledge| ==> knowledge[m] == old(knowledge)[m]
      {
        if cell in knowledge[k].cells {
          knowledge := knowledge[k := knowledge[k].MarkMine(cell)];
        }
        k := k + 1;
      }
      assert knowledge == target;
    }

    /** Records an unplayed `cell` as safe and removes it from every sentence. */
    method MarkSafe(cell: Cell)
      modifies this
      ensures State() == MarkSafeSpec(old(State()), cell)
    {
      if cell !in movesMade {
        safes := safes + {cell};
        ghost var target := MarkSafeAll(knowledge, cell);
        var k := 0;
        while k < |knowledge|
          invariant 0 <= k <= |knowledge| == |target|
          invariant mines == old(mines) && safes == old(safes) + {cell} && movesMade == old(movesMade)
          invariant forall m :: 0 <= m < k ==> knowledge[m] == target[m]
          invariant forall m :: k <= m < |knowledge| ==> knowledge[m] == old(knowledge)[m]
        {
          knowledge := knowledge[k := knowledge[k].MarkSafe(cell)];
          k := k + 1;
        }
        assert knowledge == target;
      }
    }

    /** `for element in cells: self.mark_mine(element)`, in whatever order the set yields. */
    method MarkMines(cells: set<Cell>)
      modifies this
      ensures State() == MarkMinesSpec(old(State()), cells)
    {
      var rest := cells;
      ghost var done: set<Cell> := {};
      MarkMinesAllNone(knowledge);
      while rest != {}
        invariant rest !! done && rest + done == cells
        invariant State() == MarkMinesSpec(old(State()), done)
        decreases rest
      {
        var c :| c in rest;
        MarkMine(c);
        MarkMinesAllStep(old(knowledge), done, c);
        rest := rest - {c};
        done := done + {c};
      }
    }

    /** `for element in cells: self.mark_safe(element)`, in whatever order the set yields. */
    method MarkSafes(cells: set<Cell>)
      modifies this
      ensures State() == MarkSafesSpec(old(State()), cells)
    {
      var rest := cells;
      ghost var done: set<Cell> := {};
      MarkSafesAllNone(knowledge);
      assert {} - movesMade == {};
      while rest != {}
        invariant rest !! done && rest + done == cells
        invariant State() == MarkSafesSpec(old(State()), done)
        decreases rest
      {
        var c :| c in rest;
        MarkSafe(c);
        if c !in movesMade {
          MarkSafesAllStep(old(knowledge), done - movesMade, c);
          assert (done - movesMade) + {c} == (done + {c}) - movesMade;
        } else {
          assert done - movesMade == (done + {c}) - movesMade;
        }
        rest := rest - {c};
        done := done + {c};
      }
    }

    /**
     * The cells of the new sentence around `cell`: the cell and its neighbours inside the
     * hard-coded 8×8 grid that have not been played.
     */
    method NeighbourCells(cell: Cell) returns (cells: set<Cell>)
      ensures cells == SentenceCells(cell, movesMade)
      ensures forall c :: c in cells <==> Adjacent(cell, c) && InBounds(c, 8, 8) && c !in movesMade
    {
      cells := {};
      for i := -1 to 2
        invariant forall c :: c in cells <==>
          Adjacent(cell, c) && c.0 < cell.0 + i && InBounds(c, 8, 8) && c !in movesMade
      {
        for j := -1 to 2
          invariant forall c :: c in cells <==>
            Adjacent(cell, c) && (c.0 < cell.0 + i || (c.0 == cell.0 + i && c.1 < cell.1 + j))
            && InBounds(c, 8, 8) && c !in movesMade
        {
          var newCell := (cell.0 + i, cell.1 + j);
          if 0 <= newCell.0 < 8 && 0 <= newCell.1 < 8 && newCell !in movesMade {
            cells := cells + {newCell};
          }
        }
      }
      forall c ensures c in cells <==> c in SentenceCells(cell, movesMade) {
        SentenceCellsMembers(cell, movesMade, c);
      }
    }

    /**
     * The nested loops over pairs of sentences: the mines and safe cells concluded from the
     * difference sentences, and the difference sentences with a non-zero count, each once.
     */
    method InferFromSubsets() returns (newMines: set<Cell>, newSafes: set<Cell>, inferred: seq<Sentence>)
      ensures newMines == MinesFrom(Derived(knowledge)) && newSafes == SafesFrom(Derived(knowledge))
      ensures inferred == InferredFrom(Derived(knowledge))
    {
      var kb := knowledge;
      newMines, newSafes, inferred := {}, {}, [];
      ghost var ds: seq<Sentence> := [];
      for i := 0 to |kb|
        invariant ds == DerivedFrom(kb[..i], kb)
        invariant newMines == MinesFrom(ds) && newSafes == SafesFrom(ds) && inferred == InferredFrom(ds)
      {
        var sentence1 := kb[i];
        ghost var pre := ds;
        for j := 0 to |kb|
          invariant ds == pre + DerivedWith(sentence1, kb[..j])
          invariant newMines == MinesFrom(ds) && newSafes == SafesFrom(ds) && inferred == InferredFrom(ds)
        {
          var sentence2 := kb[j];
          DerivedWithStep(pre, sentence1, kb, j, ds);
          if sentence1 != sentence2 {
            if sentence2.cells <= sentence1.cells && sentence1.cells != {} && sentence2.cells != {} {
              var newCells := sentence1.cells - sentence2.cells;
              var newCount := sentence1.count - sentence2.count;
              if newCells != {} {
                var d := Sentence(newCells, newCount);
                InferenceStep(ds, d, newMines, newSafes, inferred);
                if |newCells| == newCount {
                  newMines := newMines + newCells;
                }
                if newCount == 0 {
                  newSafes := newSafes + newCells;
                } else {
                  if d !in inferred {
                    inferred := inferred + [d];
                  }
                }
                ds := ds + [d];
              }
            }
          }
        }
        DerivedFromStep(kb, i, ds);
      }
      assert kb[..|kb|] == kb;
    }

    /**
     * The loop over the knowledge that adds the cells of every resolved sentence to the
     * mines or safe cells found so far and flags the sentence for removal.
     */
    method CollectResolved(minesSoFar: set<Cell>, safesSoFar: set<Cell>)
      returns (newMines: set<Cell>, newSafes: set<Cell>, flagged: seq<Sentence>)
      ensures newMines == minesSoFar + MinesFrom(knowledge)
      ensures newSafes == safesSoFar + SafesFrom(knowledge)
      ensures flagged == Flagged(knowledge)
    {
      var kb := knowledge;
      newMines, newSafes, flagged := minesSoFar, safesSoFar, [];
      for i := 0 to |kb|
        invariant newMines == minesSoFar + MinesFrom(kb[..i])
        invariant newSafes == safesSoFar + SafesFrom(kb[..i])
        invariant flagged == Flagged(kb[..i])
      {
        var sentence := kb[i];
        ResolvedStep(kb, i, minesSoFar, safesSoFar, newMines, newSafes, flagged);
        if |sentence.cells| == sentence.count {
          newMines := newMines + sentence.cells;
          flagged := flagged + [sentence];
        } else if sentence.count == 0 {
          newSafes := newSafes + sentence.cells;
          flagged := flagged + [sentence];
        }
      }
      assert kb[..|kb|] == kb;
    }

    /** `knowledge.remove(s)` for each flagged sentence `s` in turn. */
    method RemoveFlagged(flagged: seq<Sentence>)
      requires multiset(flagged) <= multiset(knowledge)
      modifies this
      ensures State() == old(State()).(knowledge := RemoveEach(old(knowledge), flagged))
    {
      knowledge := RemoveAll(knowledge, flagged);
    }

    /** `for sentence in knowledge: if not sentence.cells: knowledge.remove(sentence)`. */
    method PruneEmpty()
      modifies this
      ensures State() == old(State()).(knowledge := PruneFrom(old(knowledge), 0))
    {
      var i := 0;
      while i < |knowledge|
        invariant PruneFrom(knowledge, i) == PruneFrom(old(knowledge), 0)
        invariant State() == old(State()).(knowledge := knowledge)
        decreases |knowledge| - i
      {
        var sentence := knowledge[i];
        if sentence.cells == {} {
          knowledge := RemoveFirst(knowledge, sentence);
        }
        i := i + 1;
      }
    }

    /**
     * Told that the safe `cell` has `count` mines around it: records the move, adds the new
     * sentence, concludes what it can, and cleans up the knowledge.
     */
    method AddKnowledge(cell: Cell, count: int)
      modifies this
      ensures State() == AddKnowledgeSpec(old(State()), cell, count)
      ensures movesMade == old(movesMade) + {cell}
      ensures old(mines) <= mines && old(safes) <= safes && safes - old(safes) !! movesMade
    {
      movesMade := movesMade + {cell};
      MarkSafe(cell);
      var cells := NeighbourCells(cell);
      var newSentence := Sentence(cells, count);
      knowledge := knowledge + [newSentence];
      if cells != {} {
        if |cells| == count {
          MarkMines(cells);
        }
        if count == 0 {
          MarkSafes(cells);
        }
      }
      var newMines, newSafes, inferred := InferFromSubsets();
      knowledge := knowledge + inferred;
      var flagged;
      newMines, newSafes, flagged := CollectResolved(newMines, newSafes);
      RemoveFlaggedKeepsRest(knowledge);
      RemoveFlagged(flagged);
      if newMines != {} {
        MarkMines(newMines);
      }
      if newSafes != {} {
        MarkSafes(newSafes);
      }
      PruneEmpty();
    }

    /** A cell known to be safe that has not been played, if there is one. */
    method MakeSafeMove() returns (move: Option<Cell>)
      ensures move.Some? ==> move.value in safes && move.value !in movesMade
      ensures move.None? <==> safes <= movesMade
    {
      if safes != {} {
        var rest := safes;
        while rest != {}
          invariant rest <= safes && safes - rest <= movesMade
          decreases rest
        {
          var safe :| safe in rest;
          if safe !in movesMade {
            return Some(safe);
          }
          rest := rest - {safe};
        }
      }
      return None;
    }

    /** Any cell of the board that has not been played and is not known to be a mine. */
    method MakeRandomMove() returns (move: Option<Cell>)
      ensures move.Some? ==> InBounds(move.value, height, width) && move.value !in movesMade && move.value !in mines
      ensures move.None? <==> forall c :: InBounds(c, height, width) ==> c in movesMade || c in mines
    {
      var moves: set<Cell> := {};
      var i := 0;
      while i < height
        invariant i == 0 || i <= height
        invariant forall c :: c in moves <==> InBounds(c, i, width)
      {
        var j := 0;
        while j < width
          invariant j == 0 || j <= width
          invariant forall c :: c in moves <==> InBounds(c, i, width) || (c.0 == i && 0 <= c.1 < j)
        {
          moves := moves + {(i, j)};
          j := j + 1;
        }
        i := i + 1;
      }
      ghost var all := moves;
      assert forall c :: InBounds(c, height, width) <==> c in all;
      moves := moves - movesMade;
      moves := moves - mines;
      if moves != {} {
        var m :| m in moves;
        return Some(m);
      }
      forall c | InBounds(c, height, width) ensures c in movesMade || c in mines {
        assert c !in moves;
      }
      return None;
    }
  }

  /** `list.remove(x)` on a list of sentences for each `x` of `xs` in turn. */
  method RemoveAll(kb: seq<Sentence>, xs: seq<Sentence>) returns (r: seq<Sentence>)
    requires multiset(xs) <= multiset(kb)
    ensures r == RemoveEach(kb, xs)
  {
    r := kb;
    for i := 0 to |xs|
      invariant multiset(xs[..i]) <= multiset(kb)
      invariant r == RemoveEach(kb, xs[..i])
    {
      RemoveEachStep(kb, xs, i);
      r := RemoveFirst(r, xs[i]);
    }
    assert xs[..|xs|] == xs;
  }
}
