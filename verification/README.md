# Search and inference exercises, modelled in Dafny

This project models four exercises of an introductory AI course as pure
Dafny functions and methods, and proves what each of them promises.

- **Crossword generator** (`crossword_puzzle.dfy`, `crossword_arcs.dfy`,
  `crossword_search.dfy`). The puzzle is a constraint satisfaction problem:
  slots are variables, vocabulary words are values, and crossing slots must
  share a letter.
  - The solver enforces node consistency (word length).
  - It then enforces arc consistency with AC-3.
  - It then runs backtracking search. The search picks variables with the
    minimum-remaining-values rule and breaks ties by degree. It orders the
    values of a slot by how many unassigned crossing slots still hold the
    same word, most first; the docstring asks for fewest first.
- **Tic-tac-toe** (`tictactoe.dfy`). The board, legal moves, move results
  with their error cases, the winner, the end of the game, utility, and
  minimax with its two value functions.
- **Minesweeper** (`minesweeper.dfy`). Two parts:
  - the board's mine count around a cell and its winning condition;
  - the AI's propositional knowledge base. It holds sentences "`count` of
    these `cells` are mines", marks mines and safe cells, infers from single
    sentences and subset pairs, builds a sentence from a revealed count,
    picks safe and random moves, and simplifies the knowledge list.
- **Shopping** (`shopping.dfy`). The month-name lookup, and the two
  implementations of sensitivity/specificity.

`wrappers.dfy` holds `Option`/`Result`. `sets.dfy` holds two cardinality
lemmas shared by the modules.

Python iterates sets in an unspecified order. The model fixes that order
where the result depends on it:
- crossword slots follow `Crossword.variables`;
- tic-tac-toe moves are row-major;
- the minesweeper AI's choice among safe moves is arbitrary (`:|`).

## Model

| member | source | states |
|---|---|---|
| CrosswordArcs.InitialDomains | l3/crossword/generate.py:10-18 | every slot of the puzzle, and no other, starts with exactly the whole vocabulary, so every solution of the puzzle lies within the initial domains |
| CrosswordArcs.EnforceNodeConsistency | l3/crossword/generate.py:98-109 | afterwards every domain holds only words of its slot's length; no domain grows; every word of the right length is kept |
| CrosswordArcs.EnforceNodeConsistencyIdempotent | l3/crossword/generate.py:98-109 | enforcing node consistency twice is the same as once |
| CrosswordArcs.EnforceNodeConsistencyKeepsSolutions | l3/crossword/generate.py:98-109 | an assignment whose words fit their slots and lie in the domains still lies in them after the length filter |
| CrosswordArcs.Revise | l3/crossword/generate.py:112-136 | with no overlap nothing changes and the result is False; otherwise x keeps exactly the words some word of y agrees with at the overlap; no other domain changes; True exactly when x's domain strictly shrank |
| CrosswordArcs.ReviseKeepsSolutions | l3/crossword/generate.py:112-136 | a full assignment whose crossings agree and whose words lie in the domains still lies in them after a revision |
| CrosswordArcs.ArcsFrom | l3/crossword/generate.py:175-176 | the re-enqueued arcs all start at the revised slot x and join slots of the puzzle; (x, y) is among them exactly when y is a slot crossing x |
| CrosswordArcs.ArcsInto | l3/crossword/generate.py:175-176 | the corrected re-enqueue lists arcs that all end at the revised slot x; (z, x) is among them exactly when z is a slot crossing x |
| CrosswordArcs.AllArcs | l3/crossword/generate.py:155-161 | the initial queue holds only arcs between slots of the puzzle and, when overlaps are recorded both ways, only pairs of slots that cross |
| CrosswordArcs.AllArcsComplete | l3/crossword/generate.py:155-161 | when overlaps are recorded both ways, the initial queue holds every arc of the puzzle |
| CrosswordArcs.ReviseMakesConsistent | l3/crossword/generate.py:112-136 | after revising (x, y), every word left for x has a partner left for y |
| CrosswordArcs.ArcsIntoComplete | l3/crossword/generate.py:175-176 | the corrected re-enqueue puts back every arc (z, x) into the revised slot x |
| CrosswordArcs.Ac3Loop | l3/crossword/generate.py:164-178 | with either re-enqueue, the queue loop only shrinks domains and keeps them node consistent; it answers True exactly when no domain that was non-empty has become empty, so False means some domain ended up empty |
| CrosswordArcs.Ac3 | l3/crossword/generate.py:138-178 | starting from all arcs or from the given ones, domains only shrink and stay node consistent; True exactly when no non-empty domain has become empty, False exactly when one has |
| CrosswordArcs.Ac3LoopKeepsSolutions | l3/crossword/generate.py:164-178 | no word of a full assignment whose crossings agree is pruned from its domain: AC-3 never loses a solution |
| CrosswordArcs.Ac3LoopIdempotent | l3/crossword/generate.py:164-178 | on arc-consistent domains the loop changes nothing and answers True, whatever the queue |
| CrosswordArcs.ReviseKeepsConsistentOffQueue | l3/crossword/generate.py:168-176 | one step of the corrected loop keeps every arc that is off the queue consistent |
| CrosswordArcs.Ac3IncomingArcConsistent | l3/crossword/generate.py:164-178 | with the corrected re-enqueue, if every arc off the starting queue is consistent, a True answer leaves every arc of the puzzle consistent |
| CrosswordArcs.Ac3ArcConsistent | l3/crossword/generate.py:138-178 | corrected AC-3 from all arcs answers True only with arc-consistent domains, as the docstring promises |
| CrosswordArcs.Ac3OutgoingMissesArc | l3/crossword/generate.py:164-178 | with the re-enqueue as written, on a three-slot puzzle where only arc (B, C) is inconsistent, the loop from the queue (B, C) answers True on domains where arc (A, B) is not consistent |
| CrosswordArcs.Ac3LoopAsWritten | l3/crossword/generate.py:166-178 | the loop as written never answers False: it either raises AttributeError, on the misspelt `self.domain`, right after a revision that shrank a domain, or answers True with the domains unchanged |
| CrosswordArcs.Ac3AsWrittenRaisesIffPruning | l3/crossword/generate.py:170-174 | the as-written loop raises exactly when the corrected loop would change a domain; when it does finish, it returns True with the domains unchanged |
| CrosswordSearch.AssignmentComplete | l3/crossword/generate.py:180-191 | True exactly when every slot of the puzzle is assigned |
| CrosswordSearch.EntriesConsistentIffValid | l3/crossword/generate.py:204-217 | the per-entry checks (length, word used at most once, agreement with each assigned crossing slot) hold for all entries exactly when the assignment fits, uses no word twice and agrees at every crossing |
| CrosswordSearch.Consistent | l3/crossword/generate.py:194-218 | True exactly when every word has its slot's length, no word is used twice and every two assigned crossing slots share the letter at their overlap |
| CrosswordSearch.SelectFromCorrect | l3/crossword/generate.py:248-260 | the scan over the slots yields no slot only when all are assigned; otherwise it yields an unassigned slot that no other unassigned slot beats by smaller domain or, on a tie, by higher degree |
| CrosswordSearch.SelectUnassignedVariable | l3/crossword/generate.py:240-260 | None exactly when every slot is assigned; otherwise an unassigned slot of minimum domain size, and among those of that size one of highest degree |
| CrosswordSearch.RuledOutMeaning | l3/crossword/generate.py:227-235 | the count a word is ordered by (how many unassigned crossing slots still hold that same word) is at most the slot's degree, and 0 exactly when no unassigned crossing slot offers the word |
| CrosswordSearch.OrderDomainValues | l3/crossword/generate.py:220-238 | the list holds exactly the words of the slot's domain, each once, in non-increasing order of that count; words ruled out only by letter clashes are not counted, as in the source |
| CrosswordSearch.Backtrack | l3/crossword/generate.py:262-284 | a returned assignment extends the input, fills every slot, takes its new words from the domains and is valid (or is the already complete input); None only when no valid completion from the domains exists |
| CrosswordSearch.TryValues | l3/crossword/generate.py:276-284 | trying the ordered values in turn either returns an answer or shows that no valid completion gives the slot any of those values |
| CrosswordSearch.PruningKeepsSolutions | l3/crossword/generate.py:90-96 | every solution of the puzzle survives the node- and arc-consistency pruning that precedes the search |
| CrosswordSearch.PruningKeepsCompletions | l3/crossword/generate.py:90-96 | every solution of the puzzle is a completion of the empty assignment within the pruned domains, so the search can find it |
| CrosswordSearch.Solve | l3/crossword/generate.py:90-96 | a returned assignment is a solution of the puzzle: every slot holds a vocabulary word, the fill is valid; None only when the puzzle has no solution |
| TicTacToe.InitialState | l0/tictactoe/tictactoe.py:12-18 | the empty board: nine free cells, X to move, nine legal moves, game not over |
| TicTacToe.Player | l0/tictactoe/tictactoe.py:21-35 | on a board reached by alternate play, X moves exactly when both have placed as many marks, O exactly when X has placed one more |
| TicTacToe.PlayAlternates | l0/tictactoe/tictactoe.py:21-35 | a legal move keeps the mark counts balanced and hands the turn to the other player |
| TicTacToe.Actions | l0/tictactoe/tictactoe.py:38-47 | a move is offered exactly when it is on the board and its cell is empty |
| TicTacToe.ActionsCount | l0/tictactoe/tictactoe.py:38-47 | there are as many moves as empty cells |
| TicTacToe.Play | l0/tictactoe/tictactoe.py:50-65 | a legal move fills exactly one empty cell |
| TicTacToe.Result | l0/tictactoe/tictactoe.py:50-65 | succeeds exactly for a legal move, failing off the board or on a taken cell; puts the mover's mark on the chosen cell and leaves every other cell as it was |
| TicTacToe.Winner | l0/tictactoe/tictactoe.py:68-83 | a reported winner owns a full line; no winner means neither mark owns one |
| TicTacToe.TerminalIffNoActions | l0/tictactoe/tictactoe.py:87-97 | the game is over exactly when someone has won or no move remains |
| TicTacToe.Utility | l0/tictactoe/tictactoe.py:100-107 | 1 exactly when X has won, -1 exactly when O has won, 0 otherwise |
| TicTacToe.NonterminalHasMoves | l0/tictactoe/tictactoe.py:87-97 | a game that is not over has a move |
| TicTacToe.MaxOverIsMaximum | l0/tictactoe/tictactoe.py:147-149 | the running maximum is at least the value of every listed move |
| TicTacToe.MaxOverAttained | l0/tictactoe/tictactoe.py:147-149 | the running maximum is either its start value or the value of some listed move |
| TicTacToe.MinOverIsMinimum | l0/tictactoe/tictactoe.py:138-140 | the running minimum is at most the value of every listed move |
| TicTacToe.MinOverAttained | l0/tictactoe/tictactoe.py:138-140 | the running minimum is either its start value or the value of some listed move |
| TicTacToe.MaxValue | l0/tictactoe/tictactoe.py:144-149 | X's value of a position is -1, 0 or 1; with MaxValueBoundsMoves and MaxValueAttained, it is the best value among X's moves |
| TicTacToe.MinValue | l0/tictactoe/tictactoe.py:135-141 | O's value of a position is -1, 0 or 1; with MinValueBoundsMoves and MinValueAttained, it is the best value among O's moves |
| TicTacToe.MaxValueBoundsMoves | l0/tictactoe/tictactoe.py:144-149 | on a live board no move of X is worth more than X's value |
| TicTacToe.MaxValueAttained | l0/tictactoe/tictactoe.py:144-149 | on a live board some move of X is worth exactly X's value |
| TicTacToe.MinValueBoundsMoves | l0/tictactoe/tictactoe.py:135-141 | on a live board no move of O is worth less than O's value |
| TicTacToe.MinValueAttained | l0/tictactoe/tictactoe.py:135-141 | on a live board some move of O is worth exactly O's value |
| TicTacToe.BestForX | l0/tictactoe/tictactoe.py:119-125 | the running best for X is the maximum of the values, and a changed best action is a listed move achieving it |
| TicTacToe.BestForO | l0/tictactoe/tictactoe.py:126-132 | the running best for O is the minimum of the values, and a changed best action is a listed move achieving it |
| TicTacToe.Minimax | l0/tictactoe/tictactoe.py:110-133 | no move exactly when the game is over; otherwise a legal move |
| TicTacToe.MinimaxIsOptimal | l0/tictactoe/tictactoe.py:116-133 | on a live board the chosen move achieves the value of the position for the player to move |
| MinesweeperBoard.Around | l1/minesweeper/minesweeper.py:78-91 | the scan visits eight distinct cells, exactly the cells adjacent to the given one |
| MinesweeperBoard.Neighbours | l1/minesweeper/minesweeper.py:78-91 | exactly the adjacent cells that lie on the board |
| MinesweeperBoard.NearbyMines | l1/minesweeper/minesweeper.py:70-93 | the number of mines among the on-board adjacent cells, at most eight |
| MinesweeperBoard.Won | l1/minesweeper/minesweeper.py:95-99 | winning needs as many flags as mines; while only mines are flagged, the game is won exactly when the flag count reaches the mine count |
| MinesweeperSentence.Same | l1/minesweeper/minesweeper.py:117-118 | sentences compare equal exactly when their open cells and counts agree; recorded mines and safes are ignored |
| MinesweeperSentence.SameCongruent | l1/minesweeper/minesweeper.py:117-173 | sentences equal in that sense stay equal after marking the same mine or safe cell, and single-sentence inference fires on both or neither with equal results |
| MinesweeperSentence.MarkMine | l1/minesweeper/minesweeper.py:138-147 | a covered mine leaves the cells, lowers the count by one and is recorded; other cells are untouched; the covered cells and the mine total are preserved |
| MinesweeperSentence.MarkMineSound | l1/minesweeper/minesweeper.py:138-147 | marking a real mine keeps a true sentence true |
| MinesweeperSentence.MarkSafe | l1/minesweeper/minesweeper.py:149-157 | a covered safe cell leaves the cells and is recorded, the count unchanged |
| MinesweeperSentence.MarkSafeSound | l1/minesweeper/minesweeper.py:149-157 | marking a really safe cell keeps a true sentence true |
| MinesweeperSentence.InferKnowledge | l1/minesweeper/minesweeper.py:159-173 | resolves the sentence exactly when its count is 0 (all cells safe) or equals its size (all cells mines), emptying it and recording the cells accordingly; otherwise changes nothing |
| MinesweeperSentence.InferKnowledgeSound | l1/minesweeper/minesweeper.py:159-173 | the conclusions drawn from a true sentence are true |
| MinesweeperSentence.NewSentence | l1/minesweeper/minesweeper.py:109-115 | a new sentence covers exactly its cells, keeps its three cell sets apart, and is resolved at once when its count is 0 or full |
| MinesweeperSentence.NewSentenceSound | l1/minesweeper/minesweeper.py:109-115 | a sentence built from a true count is true |
| MinesweeperSentence.NewSentenceClaim | l1/minesweeper/minesweeper.py:109-115 | a new sentence, whether resolved at once or not, is true of exactly the mine placements that put `count` mines among its cells |
| MinesweeperSentence.SubsetInference | l1/minesweeper/minesweeper.py:284-287 | the sentence inferred from a subset pair covers exactly the difference of the two cell sets; unless resolved at once, its cells are that difference and its count is the difference of the counts; it is true of exactly the placements with that many mines in that difference |
| MinesweeperSentence.SubsetInferenceSound | l1/minesweeper/minesweeper.py:284-287 | when both sentences are true, the inferred difference sentence is true |
| MinesweeperAI.MarkMine | l1/minesweeper/minesweeper.py:198-207 | the cell joins the known mines; a cell not known before is marked as a mine in every sentence: it leaves the cells, and a sentence that held it records it as a mine with its count one lower; safes and moves are untouched; an already known mine changes nothing |
| MinesweeperAI.MarkMineIdempotent | l1/minesweeper/minesweeper.py:198-207 | marking the same mine a second time changes nothing |
| MinesweeperAI.MarkSafeIdempotent | l1/minesweeper/minesweeper.py:209-218 | marking the same safe cell a second time changes nothing |
| MinesweeperAI.MarkMineKeepsBeliefs | l1/minesweeper/minesweeper.py:198-207 | marking a real mine keeps the whole knowledge base true of the placement |
| MinesweeperAI.MarkSafe | l1/minesweeper/minesweeper.py:209-218 | the cell joins the known safes; a cell not known before is marked safe in every sentence: it leaves the cells, a sentence that held it records it as safe, and no count or recorded mine changes; mines and moves are untouched; an already known safe cell changes nothing |
| MinesweeperAI.MarkSafeKeepsBeliefs | l1/minesweeper/minesweeper.py:209-218 | marking a really safe cell keeps the whole knowledge base true of the placement |
| MinesweeperAI.BuildSentence | l1/minesweeper/minesweeper.py:252-270 | the sentence covers exactly the on-board neighbours; known safes and mines are moved out of its cells, the count drops by the known mines; a count of 0 resolves it at once with every neighbour safe, and a full count with every neighbour a mine, the count then 0 |
| MinesweeperAI.MakeSafeMove | l1/minesweeper/minesweeper.py:325-336 | a known safe cell not yet played, or None exactly when every known safe cell has been played |
| MinesweeperAI.MakeRandomMove | l1/minesweeper/minesweeper.py:338-353 | the first on-board cell, in row-major order, that is neither played nor a known mine; None exactly when there is none |
| MinesweeperAI.AlreadyKept | l1/minesweeper/minesweeper.py:368-373 | True exactly when an equal sentence is already in the kept list |
| MinesweeperAI.SimplifyKnowledge | l1/minesweeper/minesweeper.py:363-374 | only the knowledge changes; it keeps no empty-count sentence and no duplicates, keeps only input sentences, and keeps a copy of every input sentence with a nonzero count |
| Shopping.MonthToInt | l4/shopping/shopping.py:88-113 | the calendar index of a month abbreviation, and -1 exactly for strings that are not one |
| Shopping.MonthToIntInOrder | l4/shopping/shopping.py:88-113 | each abbreviation maps to its calendar position |
| Shopping.MonthToIntInjective | l4/shopping/shopping.py:88-113 | distinct abbreviations get distinct indices |
| Shopping.Evaluate2 | l4/shopping/shopping.py:157-164 | both rates lie in [0, 1] and the positive and negative totals together count at most all labels |
| Shopping.Evaluate | l4/shopping/shopping.py:126-155 | the loop-based evaluation returns the same sensitivity and specificity as the comprehension-based one, each in [0, 1] |

## Left out

- Parsing the puzzle structure and word list, and computing the overlaps,
  are left out. `crossword.py` is not part of this model; the solver receives
  a `Crossword` value whose overlaps are recorded in both directions.
- `letter_grid`, `print`, `save` and `main` of the crossword generator are left out. They do I/O and image output.
- Minesweeper board construction is left out. It places mines at random, so
  the model takes a board with its mine set as given. Board printing is
  left out too, and the board grid is represented by the mine set alone.
- `MinesweeperAI.add_knowledge` and `infer_new_knowledge` are left out as whole
  procedures. They mutate the knowledge base in a loop that repeats until
  nothing changes. Their steps are modelled one by one:
  - building the sentence;
  - marking safes and mines;
  - single-sentence inference;
  - the subset step;
  - simplification.
- `to_str`, `print` and the logger of the minesweeper classes are left out. They are output only.
- `load_data`, `train_model`, `compareTime` and `main` of the shopping exercise are left out. They
  are file I/O, a scikit-learn classifier and timing.
- Shopping.Evaluate: requires the predictions to be at least as long as the
  labels. The loop indexes the predictions at every label position and would
  raise IndexError otherwise.
- Shopping.Evaluate2: keeps each rate as an exact hit/total pair instead of a
  floating-point quotient; a total of 0 reads as rate 0, as in the source.
- CrosswordSearch.Consistent: a crossing whose offset lies beyond a word's end
  counts as disagreement, where the source would raise IndexError. The
  `yWord is not None` test is dropped because assignments never hold None.
- CrosswordArcs.Revise: an overlap offset beyond a word's end counts as no
  support, where the source would raise IndexError. Revising a slot against
  itself is a no-op, where the source's overlap lookup would fail.
- CrosswordArcs.Ac3Loop: its contract does not state arc consistency. That
  holds only when the arcs `(z, x)` into a shrunk slot are re-enqueued, and
  `Ac3IncomingArcConsistent` proves it for that mode. Re-enqueuing the arcs
  `(x, y)`, as the source does, can miss an arc (see Findings).
- CrosswordSearch.OrderDomainValues: ties among equally constraining words are
  broken arbitrarily, as Python's sort over a set-built dict does. The order
  is descending, as the code sorts, although the docstring asks for ascending.
- CrosswordSearch.Solve: uses the corrected AC-3 (both Findings) and, as the
  source does, ignores its verdict and always runs the search.
- The other exercises of the course (knights, pagerank, traffic and the rest) are left out.

## Findings

| source | as written | input that shows it | evidently intended | confidence | as-written member | corrected member |
|---|---|---|---|---|---|---|
| l3/crossword/generate.py:173 | after a revision that removes a word, `ac3` reads `self.domain[x]`; the attribute is `self.domains`, so it raises AttributeError | any puzzle in which some arc revision removes a word, e.g. two crossing slots whose vocabulary has a word sharing no letter with the other slot's words | test `len(self.domains[x]) == 0`, return False on an emptied domain and otherwise re-enqueue the neighbour arcs | high, not executed | CrosswordArcs.Ac3AsWrittenRaisesIffPruning | CrosswordArcs.Ac3Loop |
| l3/crossword/generate.py:175-176 | even with line 173 corrected, a revision that shrinks `x`'s domain re-enqueues the arcs `(x, y)`; the arcs `(z, x)` that already passed are not checked again, so `ac3` can return True while a word has lost its only partner | slot A down and slot B across from the same cell, slot C down from B's second cell; domains A = {ax, zx}, B = {ab, zc}, C = {cy}, where every arc but (B, C) is consistent; `ac3(arcs=[(B, C)])` drops "ab" from B and returns True, yet "ax" in A has no partner in B | re-enqueue `(z, x)` for every neighbour `z` of `x`, so that True means every arc is consistent, as the docstring says | high, not executed | CrosswordArcs.Ac3OutgoingMissesArc | CrosswordArcs.Ac3IncomingArcConsistent |
