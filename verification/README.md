# CS50 AI exercises in Dafny: crossword CSP, tic-tac-toe, Minesweeper, shopping

This project models the algorithmic core of four exercises of a CS50 AI
solution repository:

- **crossword** (`crossword/generate.py`). A crossword is treated as a constraint-satisfaction
  problem. The model covers:
  - the initial domains;
  - node consistency (word length);
  - `revise` and AC-3;
  - the completeness and consistency checks;
  - the minimum-remaining-values / degree variable choice;
  - the least-constraining-value ordering;
  - `backtrack` and `solve`.
- **tictactoe** (`tictactoe/tictactoe.py`): the rules (`player`, `actions`,
  `result`, `winner`, `terminal`, `utility`) and the exhaustive minimax search.
- **minesweeper** (`minesweeper/minesweeper.py`):
  - the board queries `is_mine`, `nearby_mines` and `won`;
  - the `Sentence` knowledge unit;
  - the AI's `mark_mine`, `mark_safe`, `make_safe_move`, and `add_knowledge` up to and
    including the re-marking of known mines.
- **shopping** (`shopping/shopping.py`): the spreadsheet encoders
  `month_to_int`, `visitor_type_to_int` and `tf_to_int`, and `evaluate`
  (sensitivity and specificity).

## How the model is shaped

Modules follow the components:

| module | file | role |
|---|---|---|
| `Wrappers` | `wrappers.dfy` | Option and Result |
| `CrosswordModel` | `crossword_model.dfy` | slots, overlap table, solutions |
| `Consistency` | `crossword_consistency.dfy` | node consistency, `revise`, AC-3 |
| `KeySort` | `crossword_sort.dfy` | the `sorted(..., key=...)` call |
| `Search` | `crossword_search.dfy` | `backtrack` and `solve` as written |
| `SearchUndo` | `crossword_undo.dfy` | the corrected search |
| `TicTacToe` | `tictactoe.dfy` | rules and minimax |
| `MinesweeperGame` | `minesweeper_game.dfy` | the board |
| `Sentences` | `minesweeper_sentence.dfy` | the knowledge unit |
| `MinesweeperAI` | `minesweeper_ai.dfy` | the AI |
| `Shopping` | `shopping.dfy` | encoders and `evaluate` |

The source mutates objects in place. Here every operation is a pure function
from the old state to the new one.

**Python exceptions** become `Result`/`Option` values:
- `result` on an illegal action;
- `is_mine` off the board;
- `evaluate` with a class absent.

**Python sets are iterated in an unspecified order.** The model fixes an order,
and where the order matters it proves that the result does not depend on it:
- **Crossword:** variables and words are duplicate-free sequences, and every loop
  over a set of them runs in sequence order.
- **Tic-tac-toe:** minimax visits the actions in row-major order. This can only
  change which of several equally good moves is returned; the value and the
  optimality do not depend on it.
- **Minesweeper:**
  - marking a set of cells safe is proved independent of the iteration order (`MarkSafesOrderFree`);
  - re-marking known mines is proved to give an order-free result on every true
    sentence (`MarkMinesInTrue`).

**Soundness specifications:**
- **Minesweeper:** a set `m` of real mine cells is a parameter. `Sound(ai, m)` says
  that everything the AI believes is true of `m`.
- **Crossword:** `IsSolution` states what a filled crossword is. `Admits(d, s)` says
  the domains `d` still contain the solution `s`.

## Model

| member | source | states |
|---|---|---|
| Shopping.MonthToInt | shopping/shopping.py:33-58 | the code is -1..11; a code k >= 0 means the input is the k-th month spelling (June written in full); -1 exactly for unrecognised strings |
| Shopping.MonthToIntCalendarOrder | shopping/shopping.py:33-58 | each of the twelve recognised spellings is encoded as its calendar position |
| Shopping.MonthToIntInjective | shopping/shopping.py:33-58 | two recognised spellings get the same code only if they are the same string |
| Shopping.ShortJuneIsUnknown | shopping/shopping.py:44-45 | the abbreviation "Jun", which the data set does not use, is not recognised |
| Shopping.VisitorTypeToInt | shopping/shopping.py:60-65 | 1 exactly for returning visitors, 0 exactly for new visitors, -1 exactly for everything else |
| Shopping.TfToInt | shopping/shopping.py:67-72 | 0 exactly for "FALSE", 1 exactly for "TRUE", -1 exactly for anything else |
| Shopping.CorrectNegativesBounded | shopping/shopping.py:148-152 | the correctly predicted negatives never outnumber the negatives |
| Shopping.CorrectPositivesBounded | shopping/shopping.py:153-156 | the correctly predicted positives never outnumber the positives |
| Shopping.CountLabels | shopping/shopping.py:144-156 | the loop's counters equal the number of negatives, positives, correct negatives and correct positives of the whole input, and each correct count is within its class |
| Shopping.Rate | shopping/shopping.py:157 | the ratio taken `total` times gives `hits`, and lies in [0, 1] when the hits are part of the trials |
| Shopping.Evaluate | shopping/shopping.py:128-157 | fails (division by zero) exactly when there are no negatives or no positives; otherwise returns the true positive rate and the true negative rate, both in [0, 1] |
| TicTacToe.InitialState | tictactoe/tictactoe.py:13-19 | every square of the starting board is empty |
| TicTacToe.InitialStateFacts | tictactoe/tictactoe.py:13-37 | on the starting board X moves, the mark counts are balanced and all nine squares are actions |
| TicTacToe.InitialNotTerminal | tictactoe/tictactoe.py:76-89 | the starting board has no winner and is not over |
| TicTacToe.Player | tictactoe/tictactoe.py:22-37 | X moves on the empty board; on a board from legal play, X moves exactly when the sides have placed equally many marks and O exactly when X is one ahead; TicTacToe.PlayersAlternate is its partner |
| TicTacToe.Actions | tictactoe/tictactoe.py:40-49 | a pair is an action exactly when it is an in-range square that is empty |
| TicTacToe.Apply | tictactoe/tictactoe.py:58-60 | the move puts the mover's mark on the chosen square, leaves every other square alone and removes exactly that square from the actions |
| TicTacToe.Result | tictactoe/tictactoe.py:52-60 | fails exactly for an off-board or taken square; otherwise the new board has the mover's mark there and is unchanged elsewhere |
| TicTacToe.MoveCounts | tictactoe/tictactoe.py:26-33 | a move adds one mark for the mover, removes one empty square and leaves the opponent's count unchanged |
| TicTacToe.PlayersAlternate | tictactoe/tictactoe.py:22-37 | from a board with balanced counts, a move keeps the counts balanced and passes the turn to the other side |
| TicTacToe.UtilityFrom | tictactoe/tictactoe.py:96-128 | testing the lines from number n on gives 1 or -1 only when X, respectively O, owns one of them, and 0 exactly when nobody owns any |
| TicTacToe.Utility | tictactoe/tictactoe.py:92-128 | nonzero exactly when some side has a line; 1 means X has one and -1 means O has one |
| TicTacToe.Winner | tictactoe/tictactoe.py:63-73 | None exactly when nobody has a line; X or O only when that side has one |
| TicTacToe.WinnerMatchesUtility | tictactoe/tictactoe.py:63-73 | the winner is None, X or O exactly when the utility is 0, 1 or -1 |
| TicTacToe.Terminal | tictactoe/tictactoe.py:76-89 | the game is over exactly when someone has a line or every square is filled, which is exactly when there is no action left |
| TicTacToe.FullIffNoActions | tictactoe/tictactoe.py:84-89 | no action is left exactly when no square is empty |
| TicTacToe.Minimax | tictactoe/tictactoe.py:131-156 | the value is in -1..1; on a finished board it is the utility with no move; otherwise the move is a legal action |
| TicTacToe.Best | tictactoe/tictactoe.py:136-156 | the loop over the actions ends with a legal move whose successor has the returned value, and no action is better for the side to move |
| TicTacToe.Consider | tictactoe/tictactoe.py:139-143 | one loop step keeps the same promise as the whole loop |
| TicTacToe.SkipSquare | tictactoe/tictactoe.py:139 | a taken square is not an action, so the loop invariant carries over it |
| TicTacToe.TakeSquare | tictactoe/tictactoe.py:141-143 | a square whose value strictly improves on the best so far becomes the move, and the invariant holds with its value |
| TicTacToe.KeepBest | tictactoe/tictactoe.py:141-143 | a square that does not strictly improve leaves the best value and the move as they were |
| TicTacToe.MinimaxOptimal | tictactoe/tictactoe.py:131-156 | on an unfinished board the returned move attains the minimax value and no action is better for the mover |
| TicTacToe.MinimaxAction | tictactoe/tictactoe.py:159-165 | None exactly on a finished board; otherwise a legal action attaining the minimax value, at least as good for the mover as every other action |
| MinesweeperGame.PyIndex | minesweeper/minesweeper.py:51-53 | Python list indexing: defined exactly for -n <= i < n, landing on i or i + n |
| MinesweeperGame.IsMine | minesweeper/minesweeper.py:51-53 | on the board, the answer is whether the cell is a mine; the lookup fails exactly where Python's indexing raises, with negative indices wrapping |
| MinesweeperGame.Hit | minesweeper/minesweeper.py:69-76 | one loop step counts 1 exactly when the offset cell is another cell holding a mine |
| MinesweeperGame.RowCount | minesweeper/minesweeper.py:66-76 | the three steps of one row of the loop count exactly that row's neighbouring mines |
| MinesweeperGame.RowsPartition | minesweeper/minesweeper.py:66-67 | the neighbouring mines split into the three rows of the block |
| MinesweeperGame.NearbyMines | minesweeper/minesweeper.py:55-78 | the count is the number of mines among the cells around the cell, itself excluded, and at most 8 |
| MinesweeperGame.Won | minesweeper/minesweeper.py:80-84 | `won` compares the flagged cells with the mine set; its meaning on the board is stated by the partner lemma MinesweeperGame.WonIffFlagsMatchBoard |
| MinesweeperGame.WonIffFlagsMatchBoard | minesweeper/minesweeper.py:80-84 | the game is won exactly when the flagged cells are precisely the board's mine cells |
| Sentences.KnownMines | minesweeper/minesweeper.py:104-110 | all cells when there are as many cells as mines, none otherwise |
| Sentences.KnownSafes | minesweeper/minesweeper.py:112-118 | all cells when the count is zero, none otherwise |
| Sentences.KnownMinesSound | minesweeper/minesweeper.py:104-110 | the cells a true sentence reports as mines are mines |
| Sentences.KnownSafesSound | minesweeper/minesweeper.py:112-118 | the cells a true sentence reports as safe hold no mine |
| Sentences.MarkMine | minesweeper/minesweeper.py:120-127 | the cell is removed only while it is present and the count is positive; the count drops by the number of cells removed and never goes below zero |
| Sentences.MarkSafe | minesweeper/minesweeper.py:129-135 | the cell is no longer in the sentence, nothing else is removed, and the count is kept |
| Sentences.MarkSafeIdempotent | minesweeper/minesweeper.py:129-135 | marking the same cell safe twice is the same as once |
| Sentences.MarkMineSound | minesweeper/minesweeper.py:120-127 | removing a real mine keeps a true sentence true |
| Sentences.MarkSafeSound | minesweeper/minesweeper.py:129-135 | removing a really safe cell keeps a true sentence true |
| MinesweeperAI.Initial | minesweeper/minesweeper.py:143-157 | a fresh AI keeps the board size and starts with no moves, no known mines, no known safes and no sentences |
| MinesweeperAI.InitialSound | minesweeper/minesweeper.py:143-157 | a fresh AI believes nothing false, whatever the mines are |
| MinesweeperAI.MarkMine | minesweeper/minesweeper.py:159-166 | the cell joins the known mines, the safes and moves are untouched, and every sentence has the mine marked |
| MinesweeperAI.MarkSafe | minesweeper/minesweeper.py:168-175 | the cell joins the known safes, the mines and moves are untouched, and every sentence has the cell marked safe |
| MinesweeperAI.MarkMineSound | minesweeper/minesweeper.py:159-166 | marking a real mine keeps a sound AI sound |
| MinesweeperAI.MarkSafeSound | minesweeper/minesweeper.py:168-175 | marking a really safe cell keeps a sound AI sound |
| MinesweeperAI.MarkSafes | minesweeper/minesweeper.py:213-214 | marking cells safe one by one adds exactly those cells to the safes and nothing else to the mines or moves |
| MinesweeperAI.MarkAllSafe | minesweeper/minesweeper.py:213-214 | the set-level effect of that loop: the safes gain the cells and every sentence loses them, keeping its count |
| MinesweeperAI.MarkSafesOrderFree | minesweeper/minesweeper.py:213-214 | marking cells safe one at a time gives the same AI in every iteration order |
| MinesweeperAI.MarkAllSafeSound | minesweeper/minesweeper.py:213-214 | marking a set of really safe cells keeps a sound AI sound |
| MinesweeperAI.MarkMines | minesweeper/minesweeper.py:224-225 | re-marking the listed mines adds exactly them to the known mines and leaves the safes and moves alone |
| MinesweeperAI.MarkMinesSound | minesweeper/minesweeper.py:224-225 | re-marking real mines keeps a sound AI sound |
| MinesweeperAI.MarkMinesPointwise | minesweeper/minesweeper.py:165-166 | re-marking mines acts on each sentence separately |
| MinesweeperAI.MarkMinesInTrue | minesweeper/minesweeper.py:224-225 | on a true sentence, re-marking real mines removes them all and lowers the count by how many were in it, whatever the order |
| MinesweeperAI.Unknown | minesweeper/minesweeper.py:193-205 | the neighbour cells are exactly the cells of the 3x3 block that are on the board, not played and not known safe |
| MinesweeperAI.Learn | minesweeper/minesweeper.py:209-221 | steps 1 to 3: the cell becomes a move and safe; a zero count also makes every unknown neighbour safe; every old sentence loses exactly the cells made safe and keeps its count; the knowledge grows by at most one sentence, exactly when the count is non-zero and no sentence over the same cells exists, and that sentence is the unknown neighbours with the count |
| MinesweeperAI.AddKnowledge | minesweeper/minesweeper.py:177-225 | the cell becomes a move and a safe cell; a zero count makes every unknown neighbour safe; the knowledge grows by at most one sentence, exactly when the count is non-zero and no sentence over the same cells exists; the known mines are unchanged |
| MinesweeperAI.MarkMinesInShape | minesweeper/minesweeper.py:120-127 | re-marking mines on any sentence removes only cells of the mine list, one off the count for each, and all of them while the count stays positive |
| MinesweeperAI.AddKnowledgeNewSentence | minesweeper/minesweeper.py:214-225 | the appended sentence lies within the unknown neighbours (on the board, not played, not safe), has lost only known mines, one off the count per mine, and all of them while its count is positive |
| MinesweeperAI.AddKnowledgeKeepsOld | minesweeper/minesweeper.py:209-225 | every earlier sentence loses only the cells made safe and then known mines, one off the count per mine, and all known mines while its count is positive |
| MinesweeperAI.UnknownMines | minesweeper/minesweeper.py:198-205 | for a sound AI, the unknown neighbours of a played safe cell contain exactly the board's neighbouring mines |
| MinesweeperAI.AddKnowledgeSound | minesweeper/minesweeper.py:177-225 | told the board's true count for a safe cell, a sound AI stays sound |
| MinesweeperAI.MakeSafeMove | minesweeper/minesweeper.py:269-281 | returns a known-safe cell that has not been played, and returns None exactly when every safe cell has been played |
| MinesweeperAI.SafeMoveIsSafe | minesweeper/minesweeper.py:269-281 | a sound AI's safe cells never hold a mine |
| Consistency.InitialDomains | crossword/generate.py:13-16 | one domain per slot, each holding exactly the pool words |
| Consistency.EnforceNodeConsistency | crossword/generate.py:96-104 | the same slots; each domain keeps exactly its words of the slot's length |
| Consistency.NodeConsistencyFixesConsistent | crossword/generate.py:96-104 | node-consistent domains are left unchanged |
| Consistency.NodeConsistencyIdempotent | crossword/generate.py:96-104 | enforcing node consistency twice is the same as once |
| Consistency.Revise | crossword/generate.py:106-136 | only x's domain changes, and it keeps exactly the words with a partner in y's domain; a pair without an overlap is left alone; the flag is true exactly when something was removed |
| Consistency.Unsupported | crossword/generate.py:120-130 | a word of x's domain is eliminated exactly when no word of y's domain agrees with it at the overlap |
| Consistency.ReviseMakesArcConsistent | crossword/generate.py:106-136 | after revising, the arc from x to y is consistent |
| Consistency.ReviseKeepsReverse | crossword/generate.py:106-136 | revising x against y keeps a consistent arc from y to x consistent |
| Consistency.ReviseKeepsPartners | crossword/generate.py:122-130 | a word of x with a matching word in y survives the revision |
| Consistency.NewArcs | crossword/generate.py:156 | the arcs queued are exactly (z, x) for each neighbour z of x other than y that is not already queued, without duplicates |
| Consistency.AllArcs | crossword/generate.py:147-148 | the default queue holds exactly the table's arcs that have an overlap |
| Consistency.AC3Loop | crossword/generate.py:150-158 | the loop only removes words, keeps node consistency, and reports failure only with an empty domain |
| Consistency.AC3LoopSound | crossword/generate.py:150-158 | when every arc outside the queue is consistent and the loop succeeds, every arc is consistent |
| Consistency.AC3LoopKeepsSolutions | crossword/generate.py:150-158 | the loop never removes a word of a solution the domains contain |
| Consistency.AC3 | crossword/generate.py:138-158 | domains only shrink and stay node-consistent; failure means an empty domain; success from the default queue means every arc is consistent; every solution the domains contained is still contained |
| Consistency.AC3Checked | crossword/generate.py:144-145 | the documented verdict on the same domains: true exactly when no domain is empty |
| Consistency.AC3MissesEmptyDomain | crossword/generate.py:150-158 | on one 3-letter slot with the pool ["ab"], `ac3` reports success with an empty domain while the documented check reports failure |
| Search.AssignmentComplete | crossword/generate.py:160-168 | true exactly when every slot has a word |
| Search.AllAssigned | crossword/generate.py:165-168 | the scan is true exactly when every listed slot is assigned |
| Search.ValuesCount | crossword/generate.py:175-176 | an assignment has as many distinct words as slots exactly when no word is used twice |
| Search.Consistent | crossword/generate.py:170-187 | true exactly when no word is used twice, every word fits its slot's length, and every pair of overlapping assigned slots agrees on the shared letter |
| Search.ConsistentRestrict | crossword/generate.py:170-187 | any part of a consistent assignment is consistent |
| Search.SolutionIsConsistent | crossword/generate.py:170-187 | a solution is exactly a consistent assignment of pool words to all the slots |
| Search.SelectFrom | crossword/generate.py:221-226 | None exactly when every slot is assigned; otherwise an unassigned slot that no unassigned slot beats, and the first such in slot order |
| Search.SelectUnassignedVariable | crossword/generate.py:213-226 | an unassigned slot with the fewest remaining words, ties to the most neighbours, then to the earliest slot |
| Search.RuledOut | crossword/generate.py:204-208 | a neighbour's word is ruled out exactly when the slots overlap and it disagrees with the candidate at the shared cell |
| Search.Constraining | crossword/generate.py:201-209 | the heuristic is zero exactly when the word rules out nothing in any open neighbour |
| Search.Heuristics | crossword/generate.py:200-209 | there is one heuristic per word of the domain |
| Search.OrderDomainValues | crossword/generate.py:189-211 | exactly x's words, each once; pool order when no neighbour is open; otherwise ordered by the heuristic, fewest ruled-out words first |
| Search.LeastConstraining | crossword/generate.py:200-211 | a permutation of x's words in non-decreasing heuristic order |
| KeySort.Sort | crossword/generate.py:211 | the sorted list is a permutation of the input with non-decreasing keys |
| KeySort.Insert | crossword/generate.py:211 | inserting into a sorted list keeps it sorted and adds exactly that element |
| KeySort.SortKeepsSorted | crossword/generate.py:211 | sorting an already sorted list returns it unchanged |
| Search.Backtrack | crossword/generate.py:228-247 | the returned assignment keeps the input's words and takes new ones from the domains; a success is complete, and consistent whenever the search had to assign something |
| Search.TryValues | crossword/generate.py:242-247 | the loop over the ordered words only ever extends the caller's assignment, and a success is complete and consistent |
| Search.Solve | crossword/generate.py:88-94 | whatever `solve` returns is a solution |
| Search.FoundIsSolution | crossword/generate.py:88-94 | a success of the search from the empty assignment is a solution |
| Search.Propagated | crossword/generate.py:92-93 | node consistency followed by AC-3 gives domains the search can work on |
| Search.EmptyDomainFails | crossword/generate.py:237-247 | an unassigned slot with an empty domain makes the search fail |
| Search.AC3FailureMeansNoSolution | crossword/generate.py:92-94 | when `ac3` fails inside `solve`, `solve` returns None although it ignores the verdict |
| SearchUndo.BacktrackUndo | crossword/generate.py:228-247 | the corrected search: a success extends the input with words from the domains, is complete, and is consistent whenever something was assigned |
| SearchUndo.TryValuesUndo | crossword/generate.py:242-247 | the corrected loop: each word starts from the caller's assignment, and a success is complete and consistent |
| SearchUndo.BacktrackUndoComplete | crossword/generate.py:228-247 | the corrected search succeeds whenever a solution agreeing with the assignment is still inside the domains |
| SearchUndo.TryValuesUndoComplete | crossword/generate.py:242-247 | the corrected loop succeeds when the reachable solution's word is among the words still to try |
| SearchUndo.SolveUndo | crossword/generate.py:88-94 | `solve` over the corrected search returns only solutions |
| SearchUndo.SolveUndoComplete | crossword/generate.py:88-94 | `solve` over the corrected search finds a solution whenever the crossword has one |
| SearchUndo.PropagatedAdmits | crossword/generate.py:92-93 | node consistency and AC-3 keep every word of every solution |
| SearchUndo.BacktrackGivesUpTooEarly | crossword/generate.py:242-247 | on three non-crossing slots with domains {aa, bb}, {aa, cc} and {aa, cc}, `backtrack` as written fails although a solution lies inside the domains, and the corrected search finds one; the domains are given by hand and the slot and word orders are one possible set iteration order |

## Left out

- The rendering, printing, image saving and command-line `main` of every
  exercise: they are I/O.
- crossword/crossword.py is not part of this model: it parses the structure and
  word files into slots and the overlap table. A crossword is given here by its
  slots, its pool and its overlap table. `WellFormed` states what the parser
  guarantees: an entry for every ordered pair of distinct slots, mirrored offsets, and
  offsets inside the slots.
- Python set iteration order is unspecified. The model fixes one order (slot order, pool
  order, row-major squares, a caller-supplied order for the known mines). The result
  does not depend on it where stated above. Where the source's choice among equal
  candidates depends on it, the model's choice is one of the allowed ones.
- KeySort.Sort: equal keys keep their input order, but this is not stated as a
  contract. The input order is a set's iteration order in the source, so the
  source's order among ties is unspecified anyway.
- Search.Consistent: returns False where the source could raise IndexError. That
  happens when a neighbour's word has the wrong length and is checked before its own
  length test.
- Consistency.Revise: the letters at the overlap are read unguarded, as in the
  source. So it requires that every word in both domains is long enough for its
  offset (`Readable`), where the source would raise IndexError.
- Consistency.AC3Loop and Consistency.AC3: they require node-consistent domains
  (every word has its slot's length). This also excludes domains with over-long
  words, which the source would process without error. The source only calls `ac3`
  after `enforce_node_consistency` (crossword/generate.py:92-93), so its domains are
  always node-consistent there.
- Search.SelectUnassignedVariable: requires an unassigned slot. The source indexes the
  first element of the sorted list and would raise IndexError on a complete
  assignment, but `backtrack` never calls it then.
- Floating point: Shopping.Evaluate returns exact rationals (`real`) where the source
  divides floats.
- Shopping.Rate: with no trials the ratio is not defined. It stands in 0.0, a case
  that Shopping.Evaluate reports as a failure before dividing.
- Shopping `load_data` and `train_model`: they read a CSV file and call
  scikit-learn's k-nearest-neighbours classifier, code outside this repository.
- Minesweeper:
  - random mine placement in the constructor: a game is given by its board;
  - `make_random_move`: it uses randomness;
  - the debug prints;
  - `Sentence.__str__`.
- MinesweeperAI.AddKnowledge: steps 4 and 5 of `add_knowledge` are not modelled (the
  inference loop, minesweeper.py lines 228-257). The model stops after the known
  mines are re-marked. The iteration order of the known mines is a parameter.
- In `neighbor_cells` the last test `(i, j)` is always true for a tuple, so it is
  dropped.
- The heredity, pagerank and parser exercises are not modelled.

## Findings

| source | as written | input that shows it | evidently intended | confidence | as-written member | corrected member |
|---|---|---|---|---|---|---|
| crossword/generate.py:242-247 | Each tried word is written into the assignment shared by the whole search and never removed. After a failed recursive call, the next candidate starts from whatever the deeper calls left behind. That is often a complete but inconsistent assignment, which ends the search at once. | Three slots that do not cross. Pool aa, bb, cc. Domains {aa, bb}, {aa, cc}, {aa, cc}, given directly to `backtrack` rather than produced by `solve`. Slots taken in the order v1, v2, v3 and words in the order aa, bb, cc (one possible set iteration order). `backtrack({})` returns None, yet bb, aa, cc is a solution inside the domains. This is a defect of `backtrack` on given domains; it does not by itself show that `solve` fails on some crossword. | Take a word back out (restore the assignment) before trying the next one, so the search is complete. | high, not executed | SearchUndo.BacktrackGivesUpTooEarly | SearchUndo.BacktrackUndo |
| crossword/generate.py:150-158 | `ac3` returns False only when the domain it has just revised becomes empty. A domain that was empty before `ac3` starts is never emptied by a revise, so it is reported only indirectly, when revising a neighbour against it empties the neighbour. The empty domain of a slot with no neighbours, or whose neighbours' domains are all empty too, goes unnoticed. The docstring promises False whenever a domain ends up empty. | A single three-letter slot and the pool ["ab"]. Node consistency empties the slot's domain, there are no arcs, and `ac3()` returns True. | Return False whenever some domain is empty at the end. | medium, not executed | Consistency.AC3MissesEmptyDomain | Consistency.AC3Checked |

Two more points:
- The corrected search is proved complete (SearchUndo.SolveUndoComplete).
- `solve` ignores the verdict of `ac3`. This does no harm: when AC-3 fails, the search
  afterwards fails too (Search.AC3FailureMeansNoSolution).
