# CS50 AI projects: crossword, minesweeper, tic-tac-toe and noun-phrase chunks

This project is a Dafny model of four search and inference programs from a
CS50 AI coursework repository, with proofs of what each is meant to do.

- **Crossword generator** (`crossword.dfy`, module `Crossword`). Its creator
  object holds one domain per puzzle variable, the words that may still fill
  that slot. It enforces node consistency (each word has the slot's length).
  It then enforces arc consistency with AC-3 (`revise` removes a word that
  has no partner in a neighbour's domain). Finally it searches by
  backtracking:
  - it picks the unassigned variable with the smallest domain, breaking
    ties by degree;
  - it tries that variable's words in order of how many neighbour words
    each rules out.

  The proofs show four things:
  - every step narrows the domains without losing a solution;
  - AC-3 ends arc consistent;
  - a result of the search is a completion of its input assignment;
  - a `None` result means no completion exists.

  Three places where the code departs from its own documentation are listed
  under Findings. The model follows the documented behaviour. For each
  finding, an as-written member isolates that one defect, with the other
  defects of the same function corrected. A lemma then shows it going wrong
  on a concrete input.
- **Minesweeper** (`minesweeper.dfy`, module `Minesweeper`).
  - The board: `nearby_mines`, `is_mine` and `won`.
  - The knowledge-based player: its sentences ("`count` of these `cells` are
    mines"), which change in place, and its known mines, safe cells and
    moves.
  - `add_knowledge`, which records a reported count and then runs rounds of
    inference: resolving sentences whose cells are all mines, and the subset
    rule.

  The central property is soundness. If everything the player knows is true
  of the real mine set, and the board's report is true, then everything the
  player knows afterwards is still true. The subset rule is proved to
  record only new differences of two sentences. A round that records
  nothing leaves the player at a fixpoint: no sentence is left to resolve,
  and every pair the rule applies to has its difference known already.
- **Tic-tac-toe** (`tictactoe.dfy`, module `TicTacToe`). This covers whose
  turn it is, the legal moves, the board after a move, the winner, the end
  of the game, its utility, and minimax with its early cut-off. Minimax is
  proved to return a legal move that attains the best value over all moves.
- **Noun-phrase chunking** (`parser.dfy`, module `Parser`). This covers
  `check_for_NP` over a parse tree and `np_chunk`, which collects in
  pre-order every NP subtree below which `check_for_NP` finds no NP.

`wrappers.dfy` holds the `Option` type used for Python's `None` and for the
exceptions the source raises.

## Model

| member | source | states |
|---|---|---|
| TicTacToe.InitialState | tictactoe/tictactoe.py:16-22 | a 3×3 board with every cell empty |
| TicTacToe.Player | tictactoe/tictactoe.py:25-46 | X moves exactly when there are no more X marks than O marks |
| TicTacToe.PlayerOfInitialState | tictactoe/tictactoe.py:25-46 | X moves first on the empty board |
| TicTacToe.CountUpdate | tictactoe/tictactoe.py:35-40 | writing one cell changes each mark count by exactly the cell's old and new contents |
| TicTacToe.CountZero | tictactoe/tictactoe.py:35-40 | a count of zero means the mark occurs in no cell, and conversely |
| TicTacToe.ActionsFrom | tictactoe/tictactoe.py:59-62 | the scan from cell k lists exactly the empty cells from k on, in strictly increasing row-major position |
| TicTacToe.ActionList | tictactoe/tictactoe.py:59-62 | the scan lists every empty cell exactly once and nothing else |
| TicTacToe.Actions | tictactoe/tictactoe.py:49-64 | the set of actions is exactly the set of empty cells |
| TicTacToe.Play | tictactoe/tictactoe.py:83-86 | the played cell gets the mover's mark, every other cell is unchanged, one empty cell fewer |
| TicTacToe.Result | tictactoe/tictactoe.py:67-86 | the exception (None) exactly when the action is off the board or not empty; otherwise the mover's mark at the action and nothing else changed |
| TicTacToe.ResultActions | tictactoe/tictactoe.py:67-86 | a legal move does not raise, and removes exactly that move from the actions |
| TicTacToe.PlayAlternates | tictactoe/tictactoe.py:43-46 | on a board reached by alternating play, a move keeps play alternating and passes the turn to the other player |
| TicTacToe.Lines | tictactoe/tictactoe.py:94-127 | the eight lines checked (rows, columns, two diagonals), three cells each |
| TicTacToe.FirstComplete | tictactoe/tictactoe.py:94-130 | a mark is returned only for a line filled with it; nothing is returned exactly when no line is filled with one mark |
| TicTacToe.Winner | tictactoe/tictactoe.py:89-130 | a returned mark has a full line; no result means neither mark has one |
| TicTacToe.Terminal | tictactoe/tictactoe.py:133-151 | the game is over exactly when there is a winner or no empty cell |
| TicTacToe.NoActionsFull | tictactoe/tictactoe.py:143-151 | no actions exactly when no cell is empty |
| TicTacToe.Utility | tictactoe/tictactoe.py:154-167 | 1 exactly when X won, -1 exactly when O won, 0 exactly when nobody won |
| TicTacToe.MaxValue | tictactoe/tictactoe.py:194-214 | the utility and no move on a finished board; otherwise a legal move whose min-value is the result and is at least the min-value of every legal move |
| TicTacToe.MinAfter | tictactoe/tictactoe.py:207 | the min-value after a legal move lies in -1..1 |
| TicTacToe.MaxLoop | tictactoe/tictactoe.py:206-214 | the loop's value is at least the start value and every move's min-value; the move changes only to one attaining the new value; stopping at 1 loses nothing |
| TicTacToe.MinValue | tictactoe/tictactoe.py:218-237 | the utility and no move on a finished board; otherwise a legal move whose max-value is the result and is at most the max-value of every legal move |
| TicTacToe.MaxAfter | tictactoe/tictactoe.py:230 | the max-value after a legal move lies in -1..1 |
| TicTacToe.MinLoop | tictactoe/tictactoe.py:229-237 | the loop's value is at most the start value and every move's max-value; the move changes only to one attaining the new value; stopping at -1 loses nothing |
| TicTacToe.Minimax | tictactoe/tictactoe.py:170-189 | no move exactly when the game is over; otherwise a legal move that is optimal for the player to move |
| Parser.CheckForNP | parser/parser.py:85-103 | when it returns, it answers whether a child is an NP node or a child with other than one child contains one; on a tree without words where tags are read it always returns |
| Parser.ScanChildren | parser/parser.py:91-103 | the loop from child k answers whether one of the children from k on is a hit, and returns when all of them are safe to read |
| Parser.DirectChildNP | parser/parser.py:93-95 | a node with an NP child contains a noun phrase and the check says True |
| Parser.SubtreesAreTheNodes | parser/parser.py:118 | the pre-order list of subtrees holds exactly the nodes at or below the tree |
| Parser.SubtreesOfAreTheNodes | parser/parser.py:118 | the same for a list of children |
| Parser.SubtreesAreNodes | parser/parser.py:118 | every listed subtree is a node, not a word |
| Parser.Chunks | parser/parser.py:118-125 | over a list of nodes: the exception exactly when some NP node's check raises; otherwise exactly the chunks of the list, in list order, each as many times as the list holds it |
| Parser.NpChunk | parser/parser.py:106-127 | every result is an NP subtree with no NP below it; every such subtree is in the result, as many times as the pre-order list of subtrees holds it; the result follows pre-order; the exception exactly when the check raises on some NP subtree |
| Crossword.CrosswordCreator.constructor | crossword/generate.py:9-17 | every variable's domain starts as the whole word list |
| Crossword.FitLength | crossword/generate.py:109-115 | keeps exactly the words of the variable's length |
| Crossword.NodeFilterSound | crossword/generate.py:97-118 | after the length filter every word fits its slot, only wrong-length words are gone, and no solution is lost |
| Crossword.CrosswordCreator.EnforceNodeConsistency | crossword/generate.py:97-118 | every domain becomes its length-filtered self, no variable added or removed |
| Crossword.CrosswordCreator.WrongLength | crossword/generate.py:106-115 | collects exactly the words whose length is not the variable's |
| Crossword.CrosswordCreator.RemoveWords | crossword/generate.py:117-118 | removes exactly the collected words from that one domain |
| Crossword.Revised | crossword/generate.py:120-128 | the revised domain is a subset of the old one |
| Crossword.ReviseMakesArcConsistent | crossword/generate.py:120-128 | after revise(x, y) every word of x has a partner in y's domain, every word that had one stays, and other domains are unchanged |
| Crossword.ReviseKeepsReverseArc | crossword/generate.py:120-128 | revising (x, y) keeps the arc (y, x) consistent |
| Crossword.ReviseKeepsOtherArcs | crossword/generate.py:120-128 | revising (x, y) keeps every consistent arc not pointing at x consistent |
| Crossword.ReviseKeepsSolutions | crossword/generate.py:120-128 | revising never removes a word that a solution uses |
| Crossword.CrosswordCreator.Revise | crossword/generate.py:120-162 | the domains become the revised ones, and the result is true exactly when x's domain shrank |
| Crossword.CrosswordCreator.InitialArcs | crossword/generate.py:175-183 | the initial queue holds exactly the ordered pairs of distinct overlapping variables |
| Crossword.CrosswordCreator.ArcsOf | crossword/generate.py:179-183 | the arcs out of one variable are exactly its overlaps with other variables |
| Crossword.CrosswordCreator.Requeue | crossword/generate.py:196-200 | the queue only grows, by arcs (z, x) with z a neighbour of x other than y, and afterwards holds every such arc |
| Crossword.QueueStepKeepsConsistency | crossword/generate.py:187-200 | every arc not in the queue stays consistent after one revise-and-requeue step |
| Crossword.ArcStepKeepsSolutions | crossword/generate.py:187-200 | one step keeps the domains within the starting ones and loses no solution |
| Crossword.ArcStepKeepsInvariant | crossword/generate.py:187-200 | one step keeps the AC-3 loop invariant: valid arcs in the queue, narrowed domains, no solution lost, no new empty domain, consistency outside the queue |
| Crossword.KeepsSolutionsTrans | crossword/generate.py:93-94 | two narrowings that each lose no solution lose none together |
| Crossword.NoNewEmptyTrans | crossword/generate.py:191-194 | a step that does not empty a domain keeps "only domains that started empty are empty" |
| Crossword.RemovalShrinksPairs | crossword/generate.py:187-200 | removing words shrinks the set of (variable, word) pairs, the measure that bounds the AC-3 loop |
| Crossword.CrosswordCreator.ProcessArc | crossword/generate.py:188-200 | one turn of the loop: failure means an empty domain; otherwise the invariant holds for the new queue and the domains shrink or the queue does |
| Crossword.CrosswordCreator.AC3 | crossword/generate.py:164-201 | the domains only narrow and lose no solution; the result is False exactly when some domain ends up empty, one empty from the start included; when True and the queue started from all arcs, or from a list covering every inconsistent arc, every arc is consistent |
| Crossword.AssignmentComplete | crossword/generate.py:203-220 | true exactly when every variable has a word |
| Crossword.AllAssignedFrom | crossword/generate.py:215-217 | true exactly when every variable from position k on has a word |
| Crossword.CrosswordCreator.IsConsistent | crossword/generate.py:222-251 | true exactly when the words are pairwise distinct, each has its variable's length, and every two assigned overlapping variables agree |
| Crossword.CrosswordCreator.AllNeighboursAgree | crossword/generate.py:241-249 | true exactly when every assigned variable agrees with every assigned variable it overlaps |
| Crossword.CrosswordCreator.NeighboursAgree | crossword/generate.py:244-249 | true exactly when the variable agrees with each assigned neighbour at their overlap |
| Crossword.ConsistentSub | crossword/generate.py:222-251 | a sub-assignment of a consistent assignment is consistent |
| Crossword.ConsistentExtend | crossword/generate.py:222-251 | adding a word keeps a consistent assignment consistent exactly when the word is new, has the slot's length and agrees with every assigned neighbour |
| Crossword.OverlapsAreNeighbors | crossword/generate.py:244-247 | an overlap entry exists exactly for neighbours |
| Crossword.Conflicts | crossword/generate.py:278-280 | zero exactly when every word of the neighbour's domain agrees with the value |
| Crossword.RuledOutOver | crossword/generate.py:262-282 | the documented key is zero exactly when no unassigned neighbour loses a word |
| Crossword.RuledOut | crossword/generate.py:262-282 | the key over all of the variable's neighbours is zero exactly when every word left to every unassigned neighbour agrees with the value |
| Crossword.LeastKey | crossword/generate.py:285 | a word of least key among the given words |
| Crossword.SortByKey | crossword/generate.py:285 | the words each exactly once, in ascending order of key |
| Crossword.CrosswordCreator.OrderDomainValues | crossword/generate.py:253-287 | the domain's words each exactly once, in ascending number of neighbour words ruled out |
| Crossword.SelectFrom | crossword/generate.py:289-344 | from position k: an unassigned variable whose domain is no larger than any later unassigned one's, and of highest degree among those of equal size |
| Crossword.SelectUnassignedVariable | crossword/generate.py:289-296 | an unassigned variable of smallest domain, of highest degree among the variables tied with it |
| Crossword.UnassignedShrinks | crossword/generate.py:367-372 | assigning a variable leaves fewer unassigned, so the search terminates |
| Crossword.CompletesStep | crossword/generate.py:367-372 | completing a[v := w] is completing a with w at v |
| Crossword.RejectValue | crossword/generate.py:367-377 | an inconsistent or dead-end word is used by no completion |
| Crossword.NoValueLeft | crossword/generate.py:379-381 | when every word of the chosen variable fails, no completion exists |
| Crossword.CrosswordCreator.TryValue | crossword/generate.py:366-377 | a result is a completion, consistent exactly when the input is; None means no completion puts this word at the variable |
| Crossword.CrosswordCreator.Backtrack | crossword/generate.py:346-381 | a result completes the assignment with domain words, consistent exactly when the input is; None means no consistent completion exists |
| Crossword.CrosswordCreator.Solve | crossword/generate.py:89-95 | a result is a solution from the original domains; None means the original domains hold no solution |
| Crossword.RemoveAsWritten | crossword/generate.py:137-159 | as written, every visited word of x is removed, however y's words agree with it, because the scan of y's words only compares the flag with True; the flag ends set exactly when it started set or some word was visited |
| Crossword.RevisedAsWritten | crossword/generate.py:130-162 | as written, with no overlap x's domain is unchanged and the result False; with one, x loses every word and the result is True exactly when it had a word |
| Crossword.RevisedAsWrittenDropsSupportedWord | crossword/generate.py:150 | a word with a partner is kept by the documented revise and dropped by the code as written |
| Crossword.RuledOutAsWritten | crossword/generate.py:268-282 | the key as written never exceeds the documented key |
| Crossword.KeyPuzzleValid | crossword/generate.py:253-287 | the puzzle of the order-key example (variables in the order C, A, B) is well formed and its domains cover its variables |
| Crossword.KeyDomainsNodeConsistent | crossword/generate.py:97-118 | the example's domains are exactly what node consistency leaves of its word list: A and B {"CAT", "COW"}, C {"OX", "UP"} |
| Crossword.KeyNeighbours | crossword/generate.py:244-249 | B's only neighbour is A, A's neighbours are B and C, and B holding "COW" alone is consistent |
| Crossword.KeySelections | crossword/generate.py:312-344 | selection as written picks B from the empty assignment, and A once B holds "COW" |
| Crossword.KeyOfB | crossword/generate.py:262-282 | under the key as written, either word of B rules out no word of A |
| Crossword.KeySearchState | crossword/generate.py:346-377 | `backtrack` as written, from the empty assignment on those domains, selects B, may try "COW" first (both of B's words have key 0), finds B holding "COW" consistent, and selects A next |
| Crossword.KeyOfCat | crossword/generate.py:262-282 | there, with B holding "COW", the documented key of "CAT" for A is 2: both words of C disagree with its "T" |
| Crossword.RuledOutAsWrittenStopsEarly | crossword/generate.py:271-272 | on node-consistent domains, in the state `backtrack` as written reaches (B holding "COW", A selected next), with A's neighbours visited as B then C, the key of "CAT" as written is 0 where the documented key is 2 |
| Crossword.SelectAsWrittenFrom | crossword/generate.py:312-344 | as written, the result is an unassigned variable |
| Crossword.SelectAsWrittenIgnoresDegree | crossword/generate.py:342-344 | on a tie in domain size the code as written picks a variable of lower degree than the documented choice |
| Minesweeper.Minesweeper.constructor | minesweeper/minesweeper.py:11-35 | the board is true exactly at the mines, with no mine found yet |
| Minesweeper.Minesweeper.PyIndex | minesweeper/minesweeper.py:54 | a Python index into a list of length n lands inside it and leaves a non-negative index as it is |
| Minesweeper.Minesweeper.IsMine | minesweeper/minesweeper.py:52-54 | None (IndexError) exactly for an index beyond the board; otherwise the mine status of the indexed cell, which is the cell itself when in bounds |
| Minesweeper.Minesweeper.NearbyMines | minesweeper/minesweeper.py:56-79 | the number of mines among the in-bounds neighbours, at most 8 |
| Minesweeper.Minesweeper.Won | minesweeper/minesweeper.py:81-85 | on a well-formed board, true exactly when the flagged cells are exactly the cells of the board that hold a mine |
| Minesweeper.NeighbourhoodSize | minesweeper/minesweeper.py:67-68 | a cell has at most eight neighbours |
| Minesweeper.Fact.KnownMines | minesweeper/minesweeper.py:105-115 | all cells when their number equals a non-zero count, none otherwise |
| Minesweeper.Fact.KnownSafes | minesweeper/minesweeper.py:117-127 | as written, a subset of the cells |
| Minesweeper.KnownSafesAlwaysEmpty | minesweeper/minesweeper.py:124 | as written, known_safes never reports a cell |
| Minesweeper.Fact.MarkedMine | minesweeper/minesweeper.py:129-140 | the cell is gone and the count is one lower exactly when the sentence held it |
| Minesweeper.Fact.MarkedSafe | minesweeper/minesweeper.py:142-152 | the cell is gone and the count is unchanged |
| Minesweeper.Fact.AfterPass | minesweeper/minesweeper.py:317-335 | after the first pass of inference visits it, a sentence that gave up mines is empty with count zero and any other is unchanged; its cells never grow |
| Minesweeper.AfterPassSound | minesweeper/minesweeper.py:326-335 | a sentence true of a mine set stays true after the pass visits it |
| Minesweeper.KnownMinesSound | minesweeper/minesweeper.py:105-115 | reported mines are mines of every mine set the sentence is true of |
| Minesweeper.MarkedMineKeepsTruth | minesweeper/minesweeper.py:129-140 | taking out a real mine keeps a sentence true |
| Minesweeper.MarkedSafeKeepsTruth | minesweeper/minesweeper.py:142-152 | taking out a safe cell keeps a sentence true |
| Minesweeper.SubsetInferenceSound | minesweeper/minesweeper.py:368-372 | the difference of a true sentence and a true sentence over a subset of its cells is true |
| Minesweeper.NewSentenceSound | minesweeper/minesweeper.py:272-294 | the sentence built from a true count is true |
| Minesweeper.NoMineAround | minesweeper/minesweeper.py:228 | a true count of zero means no neighbour is a mine |
| Minesweeper.AllMinesAround | minesweeper/minesweeper.py:251 | a true count equal to the number of neighbours means every neighbour is a mine |
| Minesweeper.Sentence.constructor | minesweeper/minesweeper.py:95-97 | the sentence holds the given cells and count |
| Minesweeper.Sentence.MarkMine | minesweeper/minesweeper.py:129-140 | the sentence's value becomes its mine-marked value |
| Minesweeper.Sentence.MarkSafe | minesweeper/minesweeper.py:142-152 | the sentence's value becomes its safe-marked value |
| Minesweeper.MinesweeperAI.constructor | minesweeper/minesweeper.py:160-177 | no moves, mines, safe cells, sentences or inferences |
| Minesweeper.MinesweeperAI.MarkMine | minesweeper/minesweeper.py:179-186 | the cell joins the mines, every sentence is mine-marked and no longer holds it, nothing else changes, and a true state stays true for a real mine |
| Minesweeper.MinesweeperAI.MarkSafe | minesweeper/minesweeper.py:188-195 | the cell joins the safe cells, every sentence is safe-marked and no longer holds it, nothing else changes, and a true state stays true for a safe cell |
| Minesweeper.MinesweeperAI.AddKnowledge | minesweeper/minesweeper.py:197-391 | the cell is a move and safe; known cells only grow; a zero count makes all neighbours safe; a count equal to the neighbours makes them all mines; a true report keeps a true state true; when the inference loop stopped on its own condition, a further round would find nothing |
| Minesweeper.MinesweeperAI.RecordReport | minesweeper/minesweeper.py:203-303 | the same, for the part before the inference loop |
| Minesweeper.MinesweeperAI.RecordMove | minesweeper/minesweeper.py:203-207 | the cell joins the moves and the safe cells, nothing else changes |
| Minesweeper.MinesweeperAI.CountNeighbours | minesweeper/minesweeper.py:214-225 | the number of in-bounds neighbours, at most 8 |
| Minesweeper.MinesweeperAI.MarkNeighboursSafe | minesweeper/minesweeper.py:228-247 | the safe cells become the old ones plus every in-bounds neighbour; each sentence loses exactly the neighbours that were not safe before, its count unchanged; the list of sentences, mines, moves and inferences unchanged; truth kept when no neighbour is a mine |
| Minesweeper.MinesweeperAI.MarkNeighboursMines | minesweeper/minesweeper.py:251-267 | the mines become the old ones plus every in-bounds neighbour; each sentence loses exactly the neighbours that were not mines before, its count lowered by how many of them it held; the list of sentences, safe cells, moves and inferences unchanged; truth kept when all neighbours are mines |
| Minesweeper.MinesweeperAI.MarkRowMines | minesweeper/minesweeper.py:252-267 | one row of that scan adds the row's in-bounds neighbours to the mines, each sentence staying its starting value with the new mines taken out |
| Minesweeper.MinesweeperAI.MarkNewMine | minesweeper/minesweeper.py:259-267 | a cell not yet a mine joins the mines, each sentence staying its starting value with all new mines taken out; nothing else changes |
| Minesweeper.MinesweeperAI.NewSentence | minesweeper/minesweeper.py:272-294 | the neighbours not clicked, safe or mines, and the count less the known mines among the open neighbours |
| Minesweeper.MinesweeperAI.AddSentence | minesweeper/minesweeper.py:296-303 | a fresh sentence with the value is appended exactly when no sentence has that value and it was never derived; nothing else changes |
| Minesweeper.MinesweeperAI.Infer | minesweeper/minesweeper.py:305-391 | moves unchanged, known cells only grow, a true state stays true; when the loop stopped on its own condition (`settled`), no sentence is left to resolve and every pair the subset rule applies to has its difference known or derived before; otherwise each of the `fuel` rounds recorded an inference |
| Minesweeper.MinesweeperAI.Round | minesweeper/minesweeper.py:310-391 | one round reports new knowledge exactly when it recorded an inference; when it reports none, nothing is left to resolve or combine; moves and safe cells unchanged, mines only grow, a true state stays true |
| Minesweeper.MinesweeperAI.CombineQuietly | minesweeper/minesweeper.py:356-391 | the second pass reports a derivation exactly when the inferences grew, and they only grow; after a first pass that left nothing to resolve, a second pass that derived nothing leaves nothing to combine |
| Minesweeper.MinesweeperAI.QuietAfterPass | minesweeper/minesweeper.py:356-391 | a second pass over sentences that all have cells and no known mines, that derived nothing, leaves nothing to resolve or combine |
| Minesweeper.MinesweeperAI.ResolveSentences | minesweeper/minesweeper.py:314-352 | the sentences become, in order, those whose old value had cells; the mines grow by exactly the known mines of the old values; the saved inferences grow by exactly the old values with known mines, in order; every old sentence becomes its after-pass value; it reports finding mines exactly when some sentence had known mines, which is exactly when the inferences grew; when it finds none, every sentence left has cells and no known mines; truth kept |
| Minesweeper.MinesweeperAI.PassOver | minesweeper/minesweeper.py:317-335 | after the loop every sentence holds its after-pass value and the kept list, the mines and the saved values are those of the whole pass; found exactly when some value had known mines |
| Minesweeper.MinesweeperAI.ResolveAt | minesweeper/minesweeper.py:317-335 | one turn of that loop extends the pass by one sentence and reports whether its value had known mines |
| Minesweeper.MinesweeperAI.FinishPass | minesweeper/minesweeper.py:317-320 | the kept sentences become the list: distinct, drawn from the old list, and exactly those whose value had cells; truth kept |
| Minesweeper.MinesweeperAI.ResolveOne | minesweeper/minesweeper.py:318-335 | a sentence is kept exactly when it has cells; it adds exactly its known mines to the mines, is saved exactly when it had some, and becomes its after-pass value |
| Minesweeper.MinesOfContains | minesweeper/minesweeper.py:326-335 | every cell a visited sentence reports as a mine is among the mines of the pass |
| Minesweeper.MinesOfWitness | minesweeper/minesweeper.py:326-335 | every mine of the pass is reported by some visited sentence |
| Minesweeper.MinesOfSound | minesweeper/minesweeper.py:326-335 | sentences true of a mine set give up only mines of that set |
| Minesweeper.ResolvedContains | minesweeper/minesweeper.py:329-331 | the saved values include that of every visited sentence with known mines |
| Minesweeper.ResolvedNone | minesweeper/minesweeper.py:329-331 | nothing is saved exactly when no visited sentence had known mines |
| Minesweeper.ResolvedWitness | minesweeper/minesweeper.py:329-331 | every saved value is that of a visited sentence with known mines, and there are no more of them than sentences visited |
| Minesweeper.KeptContains | minesweeper/minesweeper.py:317-320 | every visited sentence whose value has cells is kept |
| Minesweeper.KeptWitness | minesweeper/minesweeper.py:317-320 | every kept sentence is a visited sentence whose value has cells |
| Minesweeper.KeptDistinct | minesweeper/minesweeper.py:317-320 | distinct sentences stay distinct in the kept list |
| Minesweeper.MinesweeperAI.RecordKnownMines | minesweeper/minesweeper.py:333-335 | the cells join the mines and leave the sentence, its count lowered by their number; truth kept for real mines |
| Minesweeper.MinesweeperAI.CombineSentences | minesweeper/minesweeper.py:356-391 | every inference it records is the difference of two old sentences' values where the first's cells are a non-empty subset of the second's and the values differ; each is new to the old sentences, to the old inferences and to those recorded before it; every sentence left is an old one or a fresh one holding a recorded inference; every old value is still held; every pair of old sentences still present that the subset rule applies to has its difference held by an old sentence or among the inferences; it reports a derivation exactly when the inferences grew; known cells unchanged; truth kept |
| Minesweeper.MinesweeperAI.CombinePair | minesweeper/minesweeper.py:359-391 | one (sentence, sentence_two) step keeps that bookkeeping and covers the pair; it reports an addition exactly when the inferences grew, and they only grow; truth kept |
| Minesweeper.MinesweeperAI.AddInference | minesweeper/minesweeper.py:366-384 | a difference no sentence holds and never derived is appended as a fresh sentence and recorded as an inference, keeping the bookkeeping; truth kept when the difference is true |
| Minesweeper.MinesweeperAI.Append | minesweeper/minesweeper.py:379-384 | a fresh sentence with the value is appended to the sentences and the value to the inferences; nothing else changes; truth kept when the value is true |
| Minesweeper.MinesweeperAI.DropDuplicate | minesweeper/minesweeper.py:388-391 | of two different sentences with equal values, exactly the first sentence holding that value is removed, order kept; the bookkeeping holds; nothing else changes |
| Minesweeper.MinesweeperAI.RemoveDuplicate | minesweeper/minesweeper.py:388-391 | the removal takes out the first position holding the common value, and another position holds it too |
| Minesweeper.MinesweeperAI.RemoveHeld | minesweeper/minesweeper.py:391 | `remove` of a value held first at position p takes out exactly position p; truth kept |
| Minesweeper.MinesweeperAI.DuplicateAt | minesweeper/minesweeper.py:388-391 | two different sentences with equal values: the first position holding the value, and a second one |
| Minesweeper.MinesweeperAI.DroppedCombined | minesweeper/minesweeper.py:388-391 | dropping a sentence whose value another sentence holds keeps the bookkeeping of the pass |
| Minesweeper.MinesweeperAI.KnownInPass | minesweeper/minesweeper.py:372 | during the pass, a value some sentence holds is an old value or an inference |
| Minesweeper.MinesweeperAI.InKnowledgeValues | minesweeper/minesweeper.py:372 | `new_sentence in self.knowledge` holds exactly when the value is among the sentences' values |
| Minesweeper.DerivableSound | minesweeper/minesweeper.py:366-372 | a difference the subset rule makes of true sentences is true |
| Minesweeper.DerivedSinceAppend | minesweeper/minesweeper.py:372-384 | recording a new derived value keeps "every recorded inference is derived, new and recorded once" |
| Minesweeper.PassAppend | minesweeper/minesweeper.py:372-384 | appending a sentence with a new derived value keeps the pass's bookkeeping |
| Minesweeper.PassDrop | minesweeper/minesweeper.py:388-391 | dropping a sentence whose value another one holds keeps the pass's bookkeeping |
| Minesweeper.CoveredMono | minesweeper/minesweeper.py:359-391 | covered pairs stay covered while old sentences only leave and inferences only come |
| Minesweeper.CoveredNext | minesweeper/minesweeper.py:359-391 | a step that covers its own pair extends the covered pairs by one |
| Minesweeper.MinesweeperAI.RemoveFirstEqual | minesweeper/minesweeper.py:391 | removes the first sentence whose value is the given one, keeping the others in order; no change when none has it; nothing else changes |
| Minesweeper.MinesweeperAI.PositionOf | minesweeper/minesweeper.py:391 | the position of the first sentence with the value, the list's length exactly when none has it |
| Minesweeper.IndexOf | minesweeper/minesweeper.py:391 | the position of the first element equal to the value, the length exactly when none is |
| Minesweeper.MinesweeperAI.MakeSafeMove | minesweeper/minesweeper.py:394-411 | a safe cell not clicked yet; None exactly when every safe cell was clicked |
| Minesweeper.MinesweeperAI.PossibleMoves | minesweeper/minesweeper.py:421-428 | exactly the board cells neither clicked nor known mines, in row-major order |
| Minesweeper.MinesweeperAI.MakeRandomMove | minesweeper/minesweeper.py:413-438 | None exactly when every board cell is clicked or a known mine; otherwise such a cell that is neither |

## Left out

- The crossword structure and word files, the `Crossword` and `Variable` classes that parse them, and the image and terminal output. The puzzle's variables (in iteration order), overlaps, neighbours and word list are inputs. The crossword module these classes come from is not part of this model.
- The coursework's other programs (heredity, pagerank, questions, traffic, knights) and minesweeper/outtake.py are not modelled. Neither are the game loops and `main` functions, nor `preprocess` and the grammar in parser/parser.py.
- Crossword.CrosswordCreator.Revise: follows the docstring, not the code. As written, `self.overlaps` (generate.py:133) raises AttributeError. The `for i, j in` unpacking (generate.py:140) raises TypeError. Removing from a set while iterating (generate.py:156) raises RuntimeError. The model reads the crossword's overlaps, uses the one overlap pair, and iterates over a snapshot. The support flag is a Finding.
- Crossword.CrosswordCreator.AC3: follows the docstring and the AC-3 algorithm, not the code. As written, `ac3()` builds the arcs but never processes them, because the loop sits in the `else` (generate.py:175-201). On a given list, `self.revise(self, x, y)` (generate.py:189) raises TypeError. `!= None` (generate.py:193) tests whether a domain exists, not whether it is empty. The requeue (generate.py:197-200) adds (x, Z) instead of (Z, x) and reads a `self.variables` that does not exist. The model processes the queue in every case, fails on an empty domain, and requeues (Z, x). As the docstring says, the result is False exactly when some domain ends up empty, also one that was empty before any arc was revised. The loop as written would only ever test the domain it just revised.
- Crossword.CrosswordCreator.Backtrack: follows the docstring. As written, a consistent word that leads to a dead end is never unassigned (generate.py:367-377). Only an inconsistent word is popped, and the next word of the same variable merely overwrites it. The words that deeper calls gave other variables on a dead-end branch stay in the one shared dictionary. They then constrain every later consistency check and count as assigned when the next variable is selected. So the code as written can return None on a solvable puzzle. The model works on assignments as values, with the undo the docstring implies. As written, `consistent` (generate.py:222-251) can raise IndexError on a word shorter than an overlap. `Agree` treats that as disagreement. After node consistency the case never arises.
- Crossword.CrosswordCreator.OrderDomainValues: the order among words with equal keys is left open. Python's stable sort keeps them in the domain set's iteration order, which is hash-dependent.
- Crossword.SelectUnassignedVariable: follows the docstring's degree tie-break. Among variables tied on both size and degree, it returns the last in variable order, which the docstring allows. The code as written is a Finding.
- Minesweeper.Minesweeper.constructor: takes the set of mines. The source places a given number of mines at random.
- Minesweeper.MinesweeperAI.MakeRandomMove: the random choice is left nondeterministic. So is the choice among unclicked safe cells in MakeSafeMove, which in the source follows set iteration order.
- Minesweeper.MinesweeperAI.AddKnowledge: the inference loop runs at most `fuel` rounds. The source's loop has no bound, and the model does not prove that it ends. The `settled` result says whether the loop stopped on its own condition rather than for want of fuel. It exists only because of the bound; the source returns nothing.
- Minesweeper.MinesweeperAI.ResolveSentences: the source removes from the list it is iterating (minesweeper.py:319), which skips the next sentence. The model visits a snapshot of the list and visits every sentence. The known_safes branch (minesweeper.py:337-352) is not modelled, because `known_safes` never reports a cell (KnownSafesAlwaysEmpty).
- Minesweeper.MinesweeperAI.CombineSentences: the source also iterates a list it appends to and removes from. The model walks a snapshot and skips sentences already removed in the same pass.
- Minesweeper.MinesweeperAI.AddSentence: the guards `new_cells not in self.mines or new_cells not in self.safes` (minesweeper.py:302, minesweeper.py:378) test a set for membership in a set of cells. That is always true, so the model leaves them out.
- The prints in add_knowledge (minesweeper.py:209-212, minesweeper.py:351) and Minesweeper.print are not modelled.
- TicTacToe.Actions: the source returns a Python set and minimax iterates it in hash order. The model iterates in row-major order (ActionList). `math.inf` is modelled as ±2, outside the range of utilities. The recursion limit setting is not modelled.
- Parser.CheckForNP: asking a word (a leaf string) for its label raises AttributeError in the source. The model returns None for it, and np_chunk passes that on.

## Findings

| source | as written | input that shows it | evidently intended | confidence | as-written member | corrected member |
|---|---|---|---|---|---|---|
| crossword/generate.py:150 | `option_exists == True` compares instead of assigning, so the flag stays False and every word of x is removed whenever x and y overlap | x's domain {"CAT"}, y's domain {"COT"}, overlap (0, 0): "CAT" has a partner but is removed | set the flag, and keep a word that some word of y agrees with | not executed | Crossword.RemoveAsWritten, Crossword.RevisedAsWritten, Crossword.RevisedAsWrittenDropsSupportedWord | Crossword.Revised, Crossword.CrosswordCreator.Revise |
| crossword/generate.py:272 | the sort key uses `break` at the first assigned neighbour, so neighbours after it are not counted | A and B (crossing at their first letters) both with domain {"CAT", "COW"}, C {"OX", "UP"} crossing A's last letter, variables in the order C, A, B: `backtrack` selects B, tries "COW", then selects A; with A's neighbours visited as B then C, the key of "CAT" is 0 instead of 2 | skip an assigned neighbour (`continue`) and count the rest | not executed | Crossword.RuledOutAsWritten, Crossword.RuledOutAsWrittenStopsEarly | Crossword.RuledOutOver, Crossword.RuledOut, Crossword.CrosswordCreator.OrderDomainValues |
| crossword/generate.py:342 | on a tie in domain size it sorts the domain sizes again instead of the degrees, and returns the last variable of smallest domain | A and B with one-word domains, A crossing C, B crossing nothing: returns B (degree 0) instead of A (degree 1) | break the tie by the highest degree | not executed | Crossword.SelectAsWrittenFrom, Crossword.SelectAsWrittenIgnoresDegree | Crossword.SelectFrom, Crossword.SelectUnassignedVariable |
