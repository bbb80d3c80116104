# AI search projects: crossword generator, tic-tac-toe, degrees of separation

This project models in Dafny the search code of three small AI programs and proves what
that code promises.

- **Crossword generator** (`generate.dfy`, on top of `crossword.dfy`). This is a
  constraint-satisfaction solver.
  - `CrosswordCreator` holds a mutable map `domains` from each slot (`Variable`) to its
    candidate words.
  - It first enforces node consistency, filtering every domain by the slot's length.
  - It then runs AC-3 arc consistency over the slot-overlap graph, with a FIFO worklist.
  - Finally it runs a backtracking search with two heuristics. Slots are chosen by minimum
    remaining values, ties broken by highest degree. Words are tried in
    least-constraining-value order.
  - The puzzle structure (slots, word list, overlaps) comes from the `crossword` module.
    That module is not part of this model. `Crossword.Structure` takes its outputs as given
    values: a set of slots, a set of words, and an overlap map from ordered slot pairs to
    an optional pair of indices. `Crossword.Valid` states what the generator relies on:
    - an overlap entry exists for exactly the pairs of distinct slots;
    - overlap indices lie inside both slots;
    - `overlaps[(y, x)]` is the swap of `overlaps[(x, y)]`.

    The module's `neighbors` is the given definition `Crossword.Neighbors`: the other slots
    of the puzzle whose overlap with `x` is not `None`.
- **Tic-tac-toe** (`tictactoe.dfy`). This covers a 3×3 board of `X`, `O` and empty cells:
  - whose turn it is, the legal moves and making a move;
  - detecting a winner, the end of the game and its utility;
  - full-depth minimax, which stops early at ±1.
- **Degrees of separation** (`degrees.dfy`). This covers co-star adjacency built from the
  people and movies tables, and a breadth-first search for the shortest chain of
  (movie, person) hops between two people.

`wrappers.dfy` holds the `Option` and `Result` types shared by the three.

What is proved:
- **Crossword, pruning.**
  - Node consistency keeps exactly the words of the right length, and running it again
    changes nothing.
  - `revise(x, y)` keeps exactly the words of `x` that some word of `y` matches where the
    two slots cross. It touches nothing else and reports whether `x`'s domain changed.
  - AC-3 only removes words and never loses a solution. It fails exactly when it has
    emptied a domain itself: on failure some domain that was not empty is now empty, and on
    success every empty domain was already empty. When it succeeds, every arc it tracked is consistent, which means every arc
    when it starts from all arcs. On domains whose arcs are all consistent it succeeds
    and changes nothing, so a second run right after a successful one changes nothing.
- **Crossword, search.**
  - `consistent` holds exactly when the words are distinct, have the right lengths and
    agree at every crossing.
  - The chosen slot is minimal in domain size, then maximal in degree.
  - The word order has strictly increasing conflict counts.
  - From an incomplete input, any result of `backtrack` is a complete, consistent
    assignment that extends the input. A complete input is returned unchanged.
  - `solve` leaves the domains node consistent, and arc consistent unless some domain is
    empty. Any result of `solve` is a solution of the original domains.
- **Tic-tac-toe.**
  - A mark returned by `winner` fills some line, and `winner` returns `None` exactly when
    neither mark fills a line. When both marks fill a line, the scan order decides: rows
    first, then columns, then diagonals, with `X` before `O` within the columns and within
    the diagonals.
  - `terminal` is exactly "a winner or a full board", and `utility` follows the winner.
  - `max_value` and `min_value` return the exact minimax value of the board, with a move
    that attains it.
- **Degrees of separation.**
  - `neighbors_for_person` is exactly the co-star pairs.
  - `shortest_path` returns a chain from the source to the target that is no longer than
    any other such chain, or `None` exactly when no chain exists.

## Model

| member | source | states |
|---|---|---|
| `Crossword.RightLengthFits` | crossword/generate.py:211-223 | a word of the slot's length can be indexed at every overlap position of that slot |
| `Generate.CrosswordCreator.constructor` | crossword/generate.py:8-16 | every slot starts with the whole word list; a well-formed structure gives a well-formed generator |
| `Generate.NodeFilterCorrect` | crossword/generate.py:96-106 | node filtering only removes words; it keeps a word exactly when it is in the old domain and has the slot's length; the result is node consistent, fits every overlap, and loses no solution |
| `Generate.NodeFilterIdempotent` | crossword/generate.py:102-106 | filtering node-consistent domains changes nothing, so filtering twice is filtering once |
| `Generate.CrosswordCreator.EnforceNodeConsistency` | crossword/generate.py:102-106 | after the loop over the slots, the domains are the node filter of the domains before it |
| `Generate.RevisedIff` | crossword/generate.py:142-149 | a word survives revision exactly when it was in `x`'s domain and some word of `y` has the same letter at the crossing |
| `Generate.RevisedArcConsistent` | crossword/generate.py:108-116 | after revising `x` against `y`, every word left for `x` has a partner in `y`, so the arc `(x, y)` is consistent |
| `Generate.RevisedKeepsSolutions` | crossword/generate.py:142-149 | a revision removes no word that some solution uses |
| `Generate.RevisedKeepsArc` | crossword/generate.py:179-187 | a revision of `x` against `y` keeps every consistent arc consistent except arcs `(z, x)` with `z` other than `y`, which are the ones AC-3 re-queues |
| `Generate.PairsShrink` | crossword/generate.py:174-187 | a revision that changes a domain removes some (slot, word) pair, so the AC-3 loop terminates |
| `Generate.CrosswordCreator.Revise` | crossword/generate.py:108-152 | with no overlap, returns false and changes nothing; otherwise replaces exactly `domains[x]` with the revised set and returns true exactly when `domains[x]` changed |
| `Generate.CrosswordCreator.InitialQueue` | crossword/generate.py:163-170 | the initial worklist holds exactly the arcs `(x, y)` with `y` a neighbour of `x`, each once |
| `Generate.CrosswordCreator.EnqueueNeighbors` | crossword/generate.py:185-187 | the old worklist is kept as a prefix, followed by exactly one arc `(z, x)` for each neighbour `z` of `x` other than `y`: the appended part has one entry per such `z`, each entry is such an arc, and each such arc occurs in it |
| `Generate.AppendArcs` | crossword/generate.py:185-187 | the loop over the other neighbours leaves the old queue followed by one arc `(z, x)` per slot `z` of the set, each at its recorded index |
| `Generate.ArcAppended` | crossword/generate.py:185-187 | appending `(z, x)` for a slot `z` not yet handled keeps the queue equal to the old queue followed by one arc per handled slot |
| `Generate.PruneStep` | crossword/generate.py:174-178 | one revision keeps the domains shrunk, well fitting and solution-preserving; a change shrinks the pairs still in play; no change, or a revised arc that was already consistent, leaves the domains as they were |
| `Generate.QueueStep` | crossword/generate.py:174-187 | after one worklist step, every tracked arc is still queued or consistent |
| `Generate.KeepsSolutionsTrans` | crossword/generate.py:88-94 | losing no solution in two pruning phases loses none overall |
| `Generate.ConsistentArcUnrevised` | crossword/generate.py:142-151 | revising an arc that is already consistent keeps every word, so `revise` reports no change |
| `Generate.CrosswordCreator.Ac3` | crossword/generate.py:154-188 | domains only shrink and keep every solution; false only when AC-3 has emptied a domain that was not empty on entry; true only when AC-3 has emptied no domain; true with the default worklist leaves every arc consistent, and with a given worklist leaves the listed arcs and the arcs consistent at entry consistent; when every arc is consistent at entry, returns true and changes nothing, so running it twice is running it once |
| `Generate.CrosswordCreator.AssignmentComplete` | crossword/generate.py:190-199 | true exactly when every slot of the domains is assigned |
| `Generate.InjectiveIff` | crossword/generate.py:206-208 | an assignment has at most as many distinct words as slots, and exactly as many when no two slots share a word |
| `Generate.ConsistentBySlots` | crossword/generate.py:210-224 | an assignment is consistent exactly when its words are distinct and every slot has the right length and agrees with its assigned neighbours |
| `Generate.CrosswordCreator.AgreesWithNeighbors` | crossword/generate.py:217-224 | true exactly when the word of `v` agrees at the crossing with the word of every assigned neighbour |
| `Generate.CrosswordCreator.Consistent` | crossword/generate.py:201-226 | true exactly when the words are pairwise distinct, each has its slot's length, and assigned neighbours agree at their crossing |
| `Generate.CrosswordCreator.SelectUnassignedVariable` | crossword/generate.py:253-266 | the result is an unassigned slot, and no other unassigned slot has a smaller domain, or an equal domain and more neighbours |
| `Generate.ConflictsAddSlot` | crossword/generate.py:242-247 | the count of ruled-out words over one more neighbour is the count over the others plus that neighbour's |
| `Generate.CrosswordCreator.CountSlotConflicts` | crossword/generate.py:243-247 | the counter is the number of words of neighbour `u` that disagree with `w` at the crossing |
| `Generate.CrosswordCreator.CountConflicts` | crossword/generate.py:240-247 | the counter is the number of (neighbour, word) pairs among the given neighbours that `w` rules out |
| `Generate.MinKey` | crossword/generate.py:250 | the result is a key of the set and no key is smaller |
| `Generate.ValuesByKey` | crossword/generate.py:250-251 | the values of the cost map, one per key, in strictly increasing order of their keys, with every key present |
| `Generate.CrosswordCreator.OrderDomainValues` | crossword/generate.py:228-251 | every word is from the slot's domain; conflict counts strictly increase along the list; every count of a domain word is the count of some listed word |
| `Generate.NoOpenNeighborsNoCost` | crossword/generate.py:237-247 | with every neighbour of the slot assigned, no word rules anything out |
| `Generate.StrictCostOrderDropsWords` | crossword/generate.py:248-251 | a word order with strictly increasing costs, once every neighbour is assigned, holds at most one word, and misses some word of a domain of two or more |
| `Generate.SolutionFromShrink` | crossword/generate.py:281-282 | a solution extending `a[v := w]`, with `w` from `v`'s domain, is a solution extending `a` |
| `Generate.FoundSolution` | crossword/generate.py:280-286 | what the recursive call returns from a consistent extension is a solution extending the current assignment |
| `Generate.CrosswordCreator.TryWords` | crossword/generate.py:280-287 | a result is a solution extending the assignment, and the tried slot's domain was not empty |
| `Generate.CrosswordCreator.Backtrack` | crossword/generate.py:268-287 | a complete assignment is returned unchanged; any other result is a complete, consistent assignment extending the input with domain words; an unassigned slot with an empty domain gives `None` |
| `Generate.SearchResult` | crossword/generate.py:92-94 | a search result over pruned domains is a solution of the original domains |
| `Generate.CrosswordCreator.Solve` | crossword/generate.py:88-94 | the domains only shrink and keep every solution; afterwards they are node consistent, and arc consistent unless some domain is empty; a result is a solution of the domains before solving; a domain left empty gives `None` |
| `TicTacToe.InitialState` | tictactoe/tictactoe.py:12-18 | a 3×3 board with all nine cells empty |
| `TicTacToe.Player` | tictactoe/tictactoe.py:21-40 | `X` exactly when the board holds as many `X` as `O` cells, otherwise `O` |
| `TicTacToe.InitialPlayerIsX` | tictactoe/tictactoe.py:25-26 | the empty board is `X`'s turn |
| `TicTacToe.Actions` | tictactoe/tictactoe.py:43-61 | the set of empty cells of the board |
| `TicTacToe.EmptyCellsIff` | tictactoe/tictactoe.py:55-61 | `(i, j)` is a legal move exactly when `0 <= i, j < 3` and that cell is empty |
| `TicTacToe.Apply` | tictactoe/tictactoe.py:72-75 | a move gives a board with exactly one fewer empty cell, the cell moved to |
| `TicTacToe.ApplyMarksOneCell` | tictactoe/tictactoe.py:72-75 | the moved-to cell holds the player on move, and every other cell is unchanged |
| `TicTacToe.Result` | tictactoe/tictactoe.py:64-75 | an error exactly when the action is not a legal move, otherwise the board after the move |
| `TicTacToe.CountThreeIsFull` | tictactoe/tictactoe.py:94 | a line of three counts three of a mark exactly when every cell holds it |
| `TicTacToe.AnyThreeOfIff` | tictactoe/tictactoe.py:99-107 | the or-chain over lines holds exactly when some line is full of the mark |
| `TicTacToe.RowsWinnerCorrect` | tictactoe/tictactoe.py:93-97 | the row scan returns a mark only for a full row of it, and returns nothing exactly when no row is full |
| `TicTacToe.GroupGivesLine` | tictactoe/tictactoe.py:99-107 | a full column or diagonal is a line of the board |
| `TicTacToe.WinnerHasLine` | tictactoe/tictactoe.py:93-109 | a returned winner fills some line |
| `TicTacToe.HasLineHasWinner` | tictactoe/tictactoe.py:93-109 | a board with a full line has a winner |
| `TicTacToe.Winner` | tictactoe/tictactoe.py:78-109 | the row scan first, then the columns and the diagonals with `X` tested before `O`; its contract is stated by `TicTacToe.WinnerCorrect`, `TicTacToe.WinnerOrder`, `TicTacToe.WinnerHasLine` and `TicTacToe.HasLineHasWinner` |
| `TicTacToe.WinnerCorrect` | tictactoe/tictactoe.py:78-109 | a returned mark fills some row, column or diagonal; the result is `None` exactly when neither mark fills a line; a full row decides the result before columns and diagonals |
| `TicTacToe.WinnerOrder` | tictactoe/tictactoe.py:99-107 | with no full row, a full column of `X` gives `X`; otherwise a full column of `O` gives `O`; with no full column, a full diagonal of `X` gives `X`, and otherwise a full diagonal of `O` gives `O` |
| `TicTacToe.Terminal` | tictactoe/tictactoe.py:112-126 | over unless there is no winner and some cell is empty; its contract is stated by `TicTacToe.TerminalIff` |
| `TicTacToe.TerminalIff` | tictactoe/tictactoe.py:112-126 | the game is over exactly when there is a winner or no cell is empty |
| `TicTacToe.Utility` | tictactoe/tictactoe.py:129-137 | 1 exactly when `X` has won, -1 exactly when `O` has won, otherwise 0 |
| `TicTacToe.MaxV` | tictactoe/tictactoe.py:140-154 | the minimax value with `X` to play lies in {-1, 0, 1} |
| `TicTacToe.MinV` | tictactoe/tictactoe.py:157-170 | the minimax value with `O` to play lies in {-1, 0, 1} |
| `TicTacToe.MaxOverIs` | tictactoe/tictactoe.py:146-152 | the best reply value over a set of moves is one that a move attains and none exceeds |
| `TicTacToe.MaxOverBounded` | tictactoe/tictactoe.py:146-152 | a bound on every move's reply value bounds the best one |
| `TicTacToe.MinOverIs` | tictactoe/tictactoe.py:163-169 | the worst reply value over a set of moves is one that a move attains and none goes below |
| `TicTacToe.MinOverBounded` | tictactoe/tictactoe.py:163-169 | a bound below every move's reply value bounds the worst one |
| `TicTacToe.MaxVIs` | tictactoe/tictactoe.py:140-154 | a value some move attains and no move exceeds is the max value of a non-terminal board |
| `TicTacToe.MinVIs` | tictactoe/tictactoe.py:157-170 | a value some move attains and no move goes below is the min value of a non-terminal board |
| `TicTacToe.MaxValue` | tictactoe/tictactoe.py:140-154 | the value is the minimax value; on a terminal board it is the utility with no move; otherwise the move is legal and attains the value, also when the loop stops early at 1 |
| `TicTacToe.MinValue` | tictactoe/tictactoe.py:157-170 | the value is the minimax value; on a terminal board it is the utility with no move; otherwise the move is legal and attains the value, also when the loop stops early at -1 |
| `TicTacToe.MaxValueOnly` | tictactoe/tictactoe.py:164 | the `[0]` of `max_value`: the minimax value with `X` to play |
| `TicTacToe.MinValueOnly` | tictactoe/tictactoe.py:147 | the `[0]` of `min_value`: the minimax value with `O` to play |
| `TicTacToe.Minimax` | tictactoe/tictactoe.py:173-184 | no move exactly when the game is over; otherwise a legal move that is optimal for the player on move |
| `Degrees.NeighborsKnown` | degrees/degrees.py:167-172 | every co-star pair is a movie of the person with one of its stars, and that star is a known person |
| `Degrees.NeighborsForPerson` | degrees/degrees.py:162-172 | the set built in the nested loops is exactly the pairs `(m, q)` with `m` a movie of the person and `q` a star of `m` |
| `Degrees.StepMember` | degrees/degrees.py:119-120 | a co-star of someone in a set is one hop from that set |
| `Degrees.WithinMonotone` | degrees/degrees.py:103 | reachable in `k` hops implies reachable in any larger number of hops |
| `Degrees.ChainWithin` | degrees/degrees.py:91-96 | the end of a chain of `n` hops is reachable in `n` hops |
| `Degrees.ClosedHoldsWithin` | degrees/degrees.py:112-114 | a set of people that contains the source and is closed under co-starring contains everyone reachable |
| `Degrees.ValidNodeChain` | degrees/degrees.py:122-126 | the parent links of a search node spell a chain from the source to the node's person |
| `Degrees.SearchStarts` | degrees/degrees.py:102-106 | a frontier holding only the source node, with nothing explored, meets the search invariant |
| `Degrees.StatesTail` | degrees/degrees.py:116 | the people in a frontier are its first node's person plus those in the rest |
| `Degrees.StatesSnoc` | degrees/degrees.py:133 | adding a node adds its person to the frontier's people |
| `Degrees.FrontierTail` | degrees/degrees.py:116-117 | removing the first node and exploring its person keeps the frontier invariant |
| `Degrees.FrontierSnoc` | degrees/degrees.py:131-133 | adding a node for an unseen co-star keeps the frontier invariant |
| `Degrees.PopNode` | degrees/degrees.py:116-117 | taking the next node starts a visit that meets the visit invariant |
| `Degrees.VisitSeen` | degrees/degrees.py:131-132 | skipping a person already in the frontier or explored keeps the visit invariant |
| `Degrees.VisitAdd` | degrees/degrees.py:131-133 | queueing an unseen person who is not the target keeps the visit invariant |
| `Degrees.FinishNode` | degrees/degrees.py:119-133 | after all co-stars of the node are handled, the search invariant holds again |
| `Degrees.GoalFound` | degrees/degrees.py:121-129 | the path to the node plus the goal hop is a chain to the target that no chain to the target is shorter than |
| `Degrees.Exhausted` | degrees/degrees.py:113-114 | an empty frontier means no chain from the source ends at the target |
| `Degrees.Reverse` | degrees/degrees.py:128 | the result has the same length, and position `i` holds the element at position `|xs| - 1 - i` |
| `Degrees.ReverseSnoc` | degrees/degrees.py:124-128 | reversing after appending a hop puts that hop first |
| `Degrees.FollowParents` | degrees/degrees.py:122-128 | the rebuilt path is the hops from the source to the node followed by the goal hop |
| `Degrees.ShortestPath` | degrees/degrees.py:91-133 | `[]` when source and target are the same person; otherwise a chain from the source ending at the target and no longer than any such chain, or `None` exactly when no chain reaches the target |

## Left out

- Crossword rendering and the command line (`letter_grid`, `print`, `save`, `main`) are
  left out. They are output formatting, image drawing and argument handling.
- The `crossword` module parses the grid and word files. That is file I/O; its outputs
  are taken as a given `Crossword.Structure`.
- Degrees I/O (`load_data`, `person_id_for_name`, `main`) is left out. It reads CSV files
  and uses `input` and `print`. The `people` and `movies` tables are a given `Degrees.Db`,
  which keeps only the movie and star sets.
- Python's set and dict iteration order is not modelled. Every loop over a set picks its
  next element arbitrarily, so each result is proved for every iteration order.
- The source raises `KeyError` or `IndexError` on some inputs. Preconditions rule these
  inputs out:
  - `Crossword.Valid`, so every overlap exists and lies inside its slots;
  - `Generate.DomainsFit` (every domain word reaches its slot's overlap indices), which node
    consistency establishes;
  - an assignment's slots being slots of the puzzle;
  - `Degrees.Valid`: every movie a person lists is in `movies`, and every star a movie
    lists is in `people`. The second half holds for every table `load_data` builds, since
    an unknown person raises before anything is added. The first half does not: for a
    stars row with a known person and an unknown movie, degrees/degrees.py:53 adds the
    movie to the person before line 54 raises, and the `except` swallows the error. On
    such a table the source raises `KeyError` in `neighbors_for_person`
    (degrees/degrees.py:170); the model does not cover it;
  - `Degrees.ShortestPath` requiring the source to be a known person unless it is the
    target, since `neighbors_for_person` looks the source up in `people`;
  - `TicTacToe.IsBoard`, a board of three rows of three cells, required by the members that
    index cells or lines: `EmptyCells`, `Actions`, `Apply`, `Result`, `Winner`, `HasLine`,
    `HasEmpty`, `Terminal`, `Utility`, `MaxV`, `MinV`, `MaxValue`, `MinValue`, `Minimax`
    and the lemmas about them. `actions`, `result` and `winner` index `board[i][j]` for
    `i` and `j` below 3. `TicTacToe.Player` requires nothing, since `player` only counts
    marks row by row.
- `Generate.CrosswordCreator.Ac3`: when `arcs` is given, the source's `queue = arcs` pops
  from the caller's own list. The model copies the sequence, so that aliasing is not
  modelled. No caller in the repository passes `arcs`.
- `Generate.CrosswordCreator.Ac3`: the docstring promises "no domains are empty" on
  success. The code returns true even when a domain was already empty on entry: it
  revises only arcs that are queued, never a slot with no neighbours, and a revision that
  removes nothing does not fail. The contract therefore promises, as the code does, that
  AC-3 itself empties no domain on success, and that on failure it has emptied a domain
  that was not empty on entry.
- `Generate.CrosswordCreator.Backtrack` is proved sound only, not complete. Its docstring
  says it returns a complete assignment "if possible". `order_domain_values` keys its
  result dictionary by conflict count, so of several words with the same count only one
  is ever tried. `Generate.StrictCostOrderDropsWords` shows that a domain word can then be
  skipped, so a solvable puzzle can end in `None`. The model keeps this behaviour as
  written.
- The source's `sorted` calls are modelled as selection loops. `select_unassigned_variable`
  sorts by (domain size, minus degree) and takes the first element; the model scans for
  such a minimum (`Generate.CrosswordCreator.SelectUnassignedVariable`). The cost
  dictionary is sorted by key with `Generate.MinKey` and `Generate.ValuesByKey`.
- Some inner loops of the source are written as separate methods so that each proof stays
  small:
  - `Generate.CrosswordCreator.InitialQueue` and `EnqueueNeighbors` are the worklist loops
    of `ac3`, and `Generate.AppendArcs` is the appending loop inside `EnqueueNeighbors`;
  - `AgreesWithNeighbors` is the neighbour loop of `consistent`;
  - `CountConflicts` and `CountSlotConflicts` are the counting loops of
    `order_domain_values`;
  - `TryWords` is the candidate loop of `backtrack`;
  - `Degrees.FollowParents` is the parent walk of `shortest_path`.
- `Degrees.Reverse` models the in-place `list.reverse` as a function on values.
- `Node` and `QueueFrontier` from degrees' `util` module are not part of this model.
  `Node` is modelled as the datatype `Degrees.Node`, and the frontier as a sequence used
  first-in first-out. `contains_state` is membership in `Degrees.States`.
- `TicTacToe.MaxValueOnly` and `MinValueOnly` stand for the source's `[0]` projection of
  the mutually recursive calls. They return only the value.
- The other programs of the repository (heredity, pagerank, shopping) are not part of this
  model. They are floating-point probability arithmetic, random sampling and
  machine-learning library calls.
