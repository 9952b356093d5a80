# Minesweeper AI and PageRank, modelled in Dafny

This project models two programs and proves properties of the models.

The first is a Minesweeper game and its knowledge-based player (`minesweeper/minesweeper.py`):

- `Minesweeper` is a class over a 2-D boolean board (`array2<bool>`) and the set of mine cells.
- `Sentence` is a value: a set of cells and how many of them are mines.
- `MinesweeperAI` is a class. Its sets `movesMade`, `mines` and `safes` and its sequence of
  sentences `knowledge` are updated in place by its methods.

Every AI method is proved to leave the object in the state computed by a pure function of the
old state (modules `Inference` and `KnowledgeBase`). Soundness of the player is a lemma on those functions. Given true
neighbour counts on a board of at most 8×8, the player never:

- marks a mine as safe;
- marks a safe cell as a mine;
- keeps a false sentence.

The second is the deterministic part of PageRank (`pagerank.py`), computed over exact reals:

- the link filtering of `crawl`;
- the random surfer's `transition_model`;
- the initial ranks and the final normalisation of `iterate_pagerank`.

The distributions are proved to sum to 1 and to hold probabilities.

Files:

- `foundations.dfy`: `Option`, set-cardinality lemmas, and the grid (cells, bounds, adjacency,
  the nearby mines of a cell).
- `sentences.dfy`: `Sentence` and its operations.
- `knowledge_base.dfy`: the loops of the AI over its list of sentences, as functions. These are
  marking, subset inference, flagging, removal with `list.remove`, and the clean-up loop.
- `inference.dfy`: the AI state as a value, `add_knowledge` as a function, and soundness.
- `minesweeper_ai.dfy`: the `MinesweeperAI` class.
- `minesweeper_game.dfy`: the `Minesweeper` class.
- `pagerank.dfy`: PageRank.

Behaviour of the code kept as written:

- The new sentence of `add_knowledge` only takes cells in the hard-coded grid [0,8)×[0,8).
  `Inference.HardCodedGridMissesMines` shows that this makes the first sentence false on a 9×9
  board.
- `mark_safe(cell)` runs after the cell is recorded as played, so it does nothing.
- A difference sentence whose count equals its size is both concluded to be all mines and
  recorded as an inferred sentence. This is the `if` followed by an `if`/`else`.
- The clean-up loop removes from the list it iterates. It skips the sentence after each
  removal (`KnowledgeBase.PruneSkipsAfterRemoval`).
- `transition_model` adds a key for a link target outside the corpus, because it assigns
  `probability_distribution[next_page]`. The model keeps that. On a corpus produced by `crawl`,
  the keys are exactly the corpus pages (`PageRank.TransitionOnClosedCorpus`).

## Model

| member | source | states |
|---|---|---|
| MinesweeperGame.Minesweeper.constructor | minesweeper/minesweeper.py:10-34 | the board has the given dimensions and marks exactly the placed mines; at most `count` mines are placed, exactly `count` unless the draws run out; no mine is found yet |
| MinesweeperGame.Minesweeper.AddMines | minesweeper/minesweeper.py:25-31 | the placement loop puts a mine on each drawn cell that has none until `count` are placed; afterwards a board entry is true exactly at the placed mines, all in bounds |
| MinesweeperGame.PlaceMines | minesweeper/minesweeper.py:26-31 | reference definition of the placement loop when the generator yields `draws` in turn: a drawn cell that is already a mine is skipped, and drawing stops once `count` mines are placed; characterised by `PlaceMinesCount`, `PlaceMinesEnough` and `PlaceMinesStep`, and `Minesweeper.AddMines` is proved to compute it |
| MinesweeperGame.PlaceMinesCount | minesweeper/minesweeper.py:26-31 | placement keeps the mines already placed and only adds drawn cells; it places at most `count` mines, and exactly `count` unless the draws run out, in which case every drawn cell is a mine |
| MinesweeperGame.PlaceMinesEnough | minesweeper/minesweeper.py:26-31 | when the draws hold at least `count` distinct cells, exactly `count` mines are placed |
| MinesweeperGame.PlaceMinesStep | minesweeper/minesweeper.py:27-31 | a drawn cell that already holds a mine leaves the placement unchanged; any other drawn cell is added |
| MinesweeperGame.Minesweeper.IsMine | minesweeper/minesweeper.py:51-53 | true exactly when the cell, with Python's negative indices counted from the end, is a mine |
| MinesweeperGame.Minesweeper.NearbyMines | minesweeper/minesweeper.py:55-78 | the count is the number of mines within one row and one column of the cell, inside the board, the cell itself excluded; it is at most 8 |
| MinesweeperGame.NearbyAtMostEight | minesweeper/minesweeper.py:66-76 | a cell has at most eight neighbouring mines |
| MinesweeperGame.CountedStep | minesweeper/minesweeper.py:67-76 | one more cell of the 3×3 window raises the count by one exactly when it is another in-bounds cell holding a mine |
| MinesweeperGame.Minesweeper.Won | minesweeper/minesweeper.py:80-84 | won exactly when the flagged cells are the mines |
| Sentences.Sentence.KnownMines | minesweeper/minesweeper.py:104-112 | returns the cells exactly when they are non-empty and their number equals the count, else nothing |
| Sentences.Sentence.KnownSafes | minesweeper/minesweeper.py:114-122 | returns the cells exactly when they are non-empty and the count is zero, else nothing |
| Sentences.Sentence.MarkMine | minesweeper/minesweeper.py:124-132 | needs the cell in the sentence; removes it and lowers the count by exactly one |
| Sentences.Sentence.MarkSafe | minesweeper/minesweeper.py:134-142 | removes the cell if present, nothing else; the count never changes |
| Sentences.MarkSafeIdempotent | minesweeper/minesweeper.py:134-142 | marking the same cell safe twice is marking it once |
| Sentences.AllMinesWhenFull | minesweeper/minesweeper.py:110-111 | a true sentence whose count equals its size names only mines |
| Sentences.NoMinesWhenZero | minesweeper/minesweeper.py:120-121 | a true sentence with count zero names no mine |
| Sentences.KnownMinesSound | minesweeper/minesweeper.py:104-112 | the known mines of a true sentence are mines |
| Sentences.KnownSafesSound | minesweeper/minesweeper.py:114-122 | the known safe cells of a true sentence are not mines |
| Sentences.MarkMineKeepsTruth | minesweeper/minesweeper.py:124-132 | resolving a real mine keeps a true sentence true |
| Sentences.MarkSafeKeepsTruth | minesweeper/minesweeper.py:134-142 | resolving a cell that is no mine keeps a true sentence true |
| MinesweeperPlayer.MinesweeperAI.constructor | minesweeper/minesweeper.py:149-163 | keeps the dimensions; no move, mine, safe cell or sentence yet |
| MinesweeperPlayer.MinesweeperAI.MarkMine | minesweeper/minesweeper.py:165-177 | the new state is `MarkMineSpec` of the old one |
| Inference.MarkMineSpec | minesweeper/minesweeper.py:165-177 | the cell joins the mines; every sentence loses that cell and keeps all its other cells; exactly the sentences that held it have their count lowered by one; moves and safe cells are unchanged |
| MinesweeperPlayer.MinesweeperAI.MarkSafe | minesweeper/minesweeper.py:179-189 | the new state is `MarkSafeSpec` of the old one |
| Inference.MarkSafeSpec | minesweeper/minesweeper.py:179-189 | a played cell changes nothing; otherwise the cell joins the safe cells and leaves every sentence, all counts unchanged |
| KnowledgeBase.MarkMineAll | minesweeper/minesweeper.py:173-176 | the loop over sentences removes the mine from every sentence and lowers the count of exactly those that held it |
| KnowledgeBase.MarkSafeAll | minesweeper/minesweeper.py:187-188 | the loop over sentences removes the cell from every sentence and keeps every count |
| MinesweeperPlayer.MinesweeperAI.MarkMines | minesweeper/minesweeper.py:229-230 | marking each cell of a set as a mine, in any order, yields `MarkMinesSpec` of the old state |
| MinesweeperPlayer.MinesweeperAI.MarkSafes | minesweeper/minesweeper.py:233-234 | marking each cell of a set as safe, in any order, yields `MarkSafesSpec` of the old state; played cells are skipped |
| KnowledgeBase.MarkMinesAll | minesweeper/minesweeper.py:173-176 | reference definition of the knowledge after `mark_mine` of every cell of a set: each sentence loses those cells and its count drops by the number of them it held; `MarkMinesAllStep` shows one more cell extends it, so the order of the set loop does not matter, and `MarkMinesAllKeepsTruth` shows it keeps true sentences true |
| KnowledgeBase.MarkSafesAll | minesweeper/minesweeper.py:187-188 | reference definition of the knowledge after `mark_safe` of every cell of a set: each sentence loses those cells and keeps its count; characterised by `MarkSafesAllStep` and `MarkSafesAllKeepsTruth` |
| Inference.MarkMinesSpec | minesweeper/minesweeper.py:304-306 | reference definition of `mark_mine` for each cell of a set: the cells join the mines and the knowledge becomes `MarkMinesAll`; `MinesweeperAI.MarkMines` is proved to reach it in any iteration order, and `MarkMinesSpecSound` shows it keeps the AI consistent |
| Inference.MarkSafesSpec | minesweeper/minesweeper.py:309-311 | reference definition of `mark_safe` for each cell of a set: played cells are skipped, the others join the safe cells and the knowledge becomes `MarkSafesAll` of them; `MinesweeperAI.MarkSafes` is proved to reach it in any order, and `MarkSafesSpecSound` shows it keeps the AI consistent |
| KnowledgeBase.MarkMinesAllStep | minesweeper/minesweeper.py:305-306 | marking one more mine after a set of mines is marking the larger set, so the order of a set loop does not matter |
| KnowledgeBase.MarkSafesAllStep | minesweeper/minesweeper.py:310-311 | marking one more safe cell after a set of safe cells is marking the larger set |
| KnowledgeBase.MarkMinesAllKeepsTruth | minesweeper/minesweeper.py:165-177 | marking real mines keeps every true sentence true |
| KnowledgeBase.MarkSafesAllKeepsTruth | minesweeper/minesweeper.py:179-189 | marking cells that are not mines keeps every true sentence true |
| MinesweeperPlayer.MinesweeperAI.NeighbourCells | minesweeper/minesweeper.py:213-219 | a cell is collected exactly when it is within one step of the played cell, inside [0,8)×[0,8), and not played |
| Inference.SentenceCells | minesweeper/minesweeper.py:214-219 | reference definition of the new sentence's cells: the cell and its neighbours inside the hard-coded grid [0,8)×[0,8) that have not been played; characterised by `SentenceCellsMembers` and `NewSentenceSeesNearbyMines` |
| Inference.SentenceCellsMembers | minesweeper/minesweeper.py:214-219 | the cells of the new sentence are exactly the unplayed neighbours, and the cell itself if unplayed, inside the hard-coded grid |
| MinesweeperPlayer.MinesweeperAI.InferFromSubsets | minesweeper/minesweeper.py:237-282 | the nested loops yield the mines, the safe cells and the inferred sentences concluded from all difference sentences of the knowledge |
| KnowledgeBase.Derive | minesweeper/minesweeper.py:257-265 | reference definition of what one pair contributes: the difference sentence when the two differ, both are non-empty, the second's cells lie within the first's and the difference has cells; characterised by `DeriveKeepsTruth` and `DerivedMembers` |
| KnowledgeBase.DerivedWith | minesweeper/minesweeper.py:255-265 | reference definition of the inner loop: the difference sentences of one sentence with each sentence of the knowledge, in list order; characterised by `DerivedWithMembers` and `DerivedWithStep` |
| KnowledgeBase.DerivedFrom | minesweeper/minesweeper.py:252-265 | reference definition of the outer loop over a prefix of the knowledge; characterised by `DerivedFromMembers` and `DerivedFromStep` |
| KnowledgeBase.Derived | minesweeper/minesweeper.py:252-270 | reference definition of all difference sentences in the order of the nested loops; `DerivedMembers` characterises it by an if-and-only-if, and `DerivedKeepsTruth` shows each is true in a true knowledge base |
| KnowledgeBase.DerivedMembers | minesweeper/minesweeper.py:252-265 | a difference sentence arises exactly from two distinct sentences with non-empty cells, the second's cells a subset of the first's, with a non-empty difference; its cells are the difference and its count the difference of the counts |
| KnowledgeBase.DerivedWithMembers | minesweeper/minesweeper.py:255-270 | the inner loop over the knowledge yields a difference exactly when some sentence produces it |
| KnowledgeBase.DerivedFromMembers | minesweeper/minesweeper.py:252-270 | the two loops yield a difference exactly when some pair of sentences produces it |
| KnowledgeBase.DerivedWithStep | minesweeper/minesweeper.py:255-270 | one step of the inner loop appends the pair's difference sentence if there is one |
| KnowledgeBase.DerivedFromStep | minesweeper/minesweeper.py:252-255 | one step of the outer loop appends the differences of that sentence with the whole knowledge |
| KnowledgeBase.InferenceStep | minesweeper/minesweeper.py:270-282 | one difference sentence adds its cells to the mines when its count equals its size and to the safe cells when its count is zero; when the count is non-zero it is recorded, unless an equal sentence already was |
| KnowledgeBase.ConclusionsAppend | minesweeper/minesweeper.py:270-282 | what one more sentence adds to the concluded mines, safe cells and inferred sentences |
| KnowledgeBase.InferredFromSpec | minesweeper/minesweeper.py:274-282 | no inferred sentence is recorded twice, and a sentence is recorded exactly when it is a difference with a non-zero count |
| KnowledgeBase.FullDifferenceIsAlsoRecorded | minesweeper/minesweeper.py:271-282 | a difference sentence whose count equals its size is concluded to be all mines and is also recorded as an inferred sentence |
| KnowledgeBase.MinesFrom | minesweeper/minesweeper.py:270-297 | reference definition of the cells concluded to be mines from a list of sentences: the union of the cells of those whose count equals their size; characterised by `MinesFromMembers`, `ConclusionsAppend` and `ConclusionsSound` |
| KnowledgeBase.SafesFrom | minesweeper/minesweeper.py:270-297 | reference definition of the cells concluded to be safe: the union of the cells of the sentences with count zero; characterised by `SafesFromMembers`, `ConclusionsAppend` and `ConclusionsSound` |
| KnowledgeBase.InferredFrom | minesweeper/minesweeper.py:270-282 | reference definition of the recorded sentences: each difference sentence with a non-zero count, once, in first-seen order; characterised by `InferredFromSpec` and `FullDifferenceIsAlsoRecorded` |
| KnowledgeBase.MinesFromMembers | minesweeper/minesweeper.py:271-273 | a cell is a concluded mine exactly when some sentence whose count equals its size holds it |
| KnowledgeBase.SafesFromMembers | minesweeper/minesweeper.py:274-276 | a cell is a concluded safe cell exactly when some sentence with count zero holds it |
| KnowledgeBase.DeriveKeepsTruth | minesweeper/minesweeper.py:258-265 | the difference of two true sentences, one within the other, is true |
| KnowledgeBase.DerivedKeepsTruth | minesweeper/minesweeper.py:252-282 | every difference sentence of a true knowledge base is true |
| KnowledgeBase.ConclusionsSound | minesweeper/minesweeper.py:270-297 | from true sentences, every concluded mine is a mine and every concluded safe cell is not |
| MinesweeperPlayer.MinesweeperAI.CollectResolved | minesweeper/minesweeper.py:287-297 | the loop adds the cells of every sentence whose count equals its size to the mines, otherwise those of every sentence with count zero to the safe cells, and flags those sentences in order |
| KnowledgeBase.ResolvedStep | minesweeper/minesweeper.py:287-297 | one step of that loop, in its three cases: full, else empty count, else untouched |
| MinesweeperPlayer.MinesweeperAI.RemoveFlagged | minesweeper/minesweeper.py:299-301 | removing each flagged sentence with `list.remove` leaves the knowledge `RemoveEach` of the old one, nothing else changed |
| MinesweeperPlayer.RemoveAll | minesweeper/minesweeper.py:299-301 | the loop of `list.remove` calls over the flagged sentences, on a list value: its result is `RemoveEach` of the list |
| KnowledgeBase.RemoveFirst | minesweeper/minesweeper.py:301 | `list.remove` needs the sentence present; it deletes the first element equal to it and keeps all others in their order, so the list shrinks by one and loses exactly that element |
| KnowledgeBase.FirstIndex | minesweeper/minesweeper.py:301 | the position `list.remove` uses holds the sentence, and no earlier position does |
| KnowledgeBase.RemoveEach | minesweeper/minesweeper.py:299-301 | removing a sub-multiset element by element leaves exactly the remaining elements, in their original order |
| KnowledgeBase.RemoveEachStep | minesweeper/minesweeper.py:299-301 | every flagged sentence is still present when its turn to be removed comes |
| KnowledgeBase.Flagged | minesweeper/minesweeper.py:287-297 | reference definition of the flagged list: the sentences whose count equals their size or is zero, in list order; `ResolvedStep` ties the loop to it and `RemoveFlaggedKeepsRest` shows removing them leaves `Kept` |
| KnowledgeBase.Kept | minesweeper/minesweeper.py:287-301 | reference definition of the sentences left after the removal: the unresolved ones in list order; characterised by `RemoveFlaggedKeepsRest` and `KeptUnresolved` |
| KnowledgeBase.RemoveFlaggedKeepsRest | minesweeper/minesweeper.py:287-301 | removing the flagged sentences never fails and leaves exactly the unflagged sentences, in their order |
| KnowledgeBase.KeptUnresolved | minesweeper/minesweeper.py:287-301 | no sentence left after the removal has a count equal to its size or a count of zero |
| MinesweeperPlayer.MinesweeperAI.PruneEmpty | minesweeper/minesweeper.py:313-316 | the clean-up loop leaves the knowledge `PruneFrom` of the old one, removing while iterating; nothing else changes |
| KnowledgeBase.PruneFrom | minesweeper/minesweeper.py:314-316 | reference definition of the clean-up loop from a position on, with Python's index iterator: after a removal the next sentence moves into the visited slot and is skipped; characterised by `PruneKeepsNonEmpty` and `PruneSkipsAfterRemoval`, and `MinesweeperAI.PruneEmpty` is proved to compute it |
| KnowledgeBase.PruneKeepsNonEmpty | minesweeper/minesweeper.py:313-316 | the clean-up keeps every non-empty sentence, in order, and adds none |
| KnowledgeBase.PruneSkipsAfterRemoval | minesweeper/minesweeper.py:314-316 | of two empty sentences in a row only the first is removed, because the second slides into the visited slot |
| MinesweeperPlayer.MinesweeperAI.AddKnowledge | minesweeper/minesweeper.py:191-327 | the new state is `AddKnowledgeSpec` of the old one; the played cell joins the moves; mines and safe cells only grow; no new safe cell is a played cell |
| Inference.AddKnowledgeSpec | minesweeper/minesweeper.py:207-316 | the played cell, and only it, joins the moves; mines and safe cells never lose an element; no cell that became safe is a played cell, the clicked cell included |
| Inference.NewSentenceSeesNearbyMines | minesweeper/minesweeper.py:214-224 | on a board of at most 8×8, the mines among the new sentence's cells are exactly those the game counts as nearby |
| Inference.AddKnowledgeSound | minesweeper/minesweeper.py:191-316 | given the true count of an unmined cell on a board of at most 8×8, every marked mine is a mine, no safe cell or played cell is a mine, and every sentence stays true |
| Inference.MarkMinesSpecSound | minesweeper/minesweeper.py:303-306 | marking real mines keeps the AI consistent with the placement |
| Inference.MarkSafesSpecSound | minesweeper/minesweeper.py:308-311 | marking cells that are no mines keeps the AI consistent with the placement |
| Inference.HardCodedGridMissesMines | minesweeper/minesweeper.py:218 | on a 9×9 board the hard-coded range(8) leaves a neighbouring mine out, making the first sentence false |
| MinesweeperPlayer.MinesweeperAI.MakeSafeMove | minesweeper/minesweeper.py:329-346 | a returned cell is known safe and not played; nothing is returned exactly when every safe cell is played; no field changes |
| MinesweeperPlayer.MinesweeperAI.MakeRandomMove | minesweeper/minesweeper.py:349-371 | a returned cell is on the board, not played and not a known mine; nothing is returned exactly when no such cell exists; no field changes |
| PageRank.PageLinks | pagerank.py:39 | a page's link set holds exactly the links found in it other than itself |
| PageRank.KeepCorpusLinks | pagerank.py:42-46 | the pages stay the same; each keeps exactly those of its links that are pages of the corpus |
| PageRank.Crawl | pagerank.py:39-46 | every page of the corpus links only to other pages of the corpus, never to itself, and to exactly those of its found links |
| PageRank.KeepCorpusLinksIdempotent | pagerank.py:42-46 | filtering an already filtered corpus changes nothing |
| PageRank.TransitionModel | pagerank.py:51-81 | the loops build exactly the distribution `Transition` |
| PageRank.SetEach | pagerank.py:66-69 | every linked page is set to the link share, and the other entries are kept |
| PageRank.AddToEvery | pagerank.py:78-80 | every entry grows by the random-jump share, keys unchanged |
| PageRank.Transition | pagerank.py:51-81 | reference definition of the distribution `transition_model` returns: keys are the corpus pages plus the page's links, a linked page gets `damping / len(links)` plus the random-jump share, and a page without links spreads 1 evenly; characterised by `TransitionOnClosedCorpus`, `TransitionSumsToOne` and `TransitionIsProbability`, and `TransitionModel` is proved to compute it |
| PageRank.TransitionOnClosedCorpus | pagerank.py:60-80 | when all links stay in the corpus, the keys are the corpus pages; with k > 0 links each linked page gets d/k + (1-d)/N and every other page (1-d)/N; without links every page gets 1/N |
| PageRank.TransitionSumsToOne | pagerank.py:60-81 | the values of the distribution sum to 1 for any damping factor |
| PageRank.TransitionIsProbability | pagerank.py:52-81 | for a damping factor in [0, 1] every value lies in [0, 1] |
| PageRank.InitialRanks | pagerank.py:120-124 | the initial ranks have exactly the corpus pages as keys; `InitialRanksSumToOne` shows each is 1/N and they sum to 1 |
| PageRank.InitialRanksSumToOne | pagerank.py:120-124 | every page starts at 1/N and the initial ranks sum to 1 |
| PageRank.Normalise | pagerank.py:164-167 | the pages stay the same; each rank is divided by the sum of the ranks; the result sums to 1 when non-empty; non-negative ranks become values in [0, 1] |
| PageRank.SumValues | pagerank.py:165 | Python's `sum` over the ranks equals the total of the ranks |
| PageRank.NormalisedSumsToOne | pagerank.py:164-167 | ranks divided by their non-zero sum add up to 1 |
| PageRank.NormalisedAreProbabilities | pagerank.py:164-167 | non-negative ranks divided by their sum lie in [0, 1] |

## Left out

- `mail/mail/static/mail/inbox.js` is not part of this model. It is DOM manipulation and calls to a web backend.
- Randomness: the mine placement takes the cells the generator would yield as a parameter `draws`. `make_random_move` picks its cell by nondeterministic choice. Python sets are iterated in an unspecified order, and every loop over a set is modelled for any order.
- MinesweeperGame.Minesweeper.constructor: when the draws run out before `count` mines are placed, the model returns with the mines placed so far. On a board with at least one cell, the source draws forever when `count` exceeds the number of cells. On a board with no rows or no columns and a positive `count`, `random.randrange` of an empty range raises `ValueError` (minesweeper/minesweeper.py:27-28). The model has no in-bounds draw there, so it returns with no mines instead of raising.
- MinesweeperGame.Minesweeper.constructor: dimensions are natural numbers. In the source, a negative height or width gives an empty board only when `mines` is 0. With any other count, `random.randrange` raises `ValueError` (minesweeper/minesweeper.py:27-28). The model covers neither case.
- MinesweeperGame.Minesweeper.constructor: `count` is a natural number. On a negative `mines`, the source's loop `while len(self.mines) != mines` (minesweeper/minesweeper.py:26) never ends. The model does not cover that input.
- MinesweeperGame.Minesweeper.IsMine: requires the cell to lie within the board, counting negative indices from the end. Outside that range Python raises `IndexError`, and the model does not cover that error.
- MinesweeperGame.Minesweeper.constructor and MinesweeperPlayer.MinesweeperAI.constructor: the default arguments `height=8, width=8` (and `mines=8` for the game) are not modelled, because Dafny constructors take every argument. The default 8×8 board is the size the hard-coded `range(8)` of `add_knowledge` assumes, which is why `Inference.AddKnowledgeSound` requires a board of at most 8×8.
- `Minesweeper.print`, `Sentence.__str__` and every debug `print` and string building in `add_knowledge` are output only.
- MinesweeperPlayer.MinesweeperAI.RemoveFlagged: the `list.remove` calls run on a list value (`RemoveAll`), and the field is assigned once at the end rather than after each call. Nothing reads the list between the calls, so the final state is the same.
- `Sentence.mark_mine` and `mark_safe` change the sentence in place. The model returns the changed sentence and stores it at the same position of the knowledge. No sentence object appears twice in the list, so no aliasing is lost.
- `transition_model` indexes its argument as `page[0]`. PageRank.TransitionModel takes the page name itself.
- PageRank.TransitionModel: requires the page to be in the corpus. Python raises `KeyError` at `corpus[page[0]]` otherwise, and the model does not cover that error. The same precondition is on PageRank.Transition.
- PageRank.InitialRanks: requires a non-empty corpus. On an empty corpus Python raises `ZeroDivisionError` at `1 / N`, and the model does not cover that error.
- PageRank.Normalise: requires the ranks to be empty or to have a non-zero sum. Python raises `ZeroDivisionError` when non-empty ranks sum to zero, and the model does not cover that error.
- Floating-point rounding: every PageRank quantity is an exact real.
- `sample_pagerank` is a random walk. It is left out.
- The convergence loop of `iterate_pagerank`, lines 127-162 of `pagerank.py`, is left out. Its termination depends on float behaviour and a tolerance. Only the initial ranks and the final normalisation are modelled.
- `crawl`'s directory listing, file reading, `.html` filter and regular-expression link extraction (lines 30-38) are left out. PageRank.Crawl takes, for each file name, the links found in it.
- `main` (pagerank.py:10-21) only reads arguments and prints.
