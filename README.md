# Tic-tac-toe game state and minimax search

A Dafny model of the `TicTacToe` class of `TicTacToe.py`: the game state
(a nine-cell board of `' '`, `'x'` and `'o'`, each player's list of move
indices, the combined list of moves and a 0/1 turn toggle), its queries
`get_num_moves` and `get_available_moves`, its one mutator `add_move`, the
terminal test `check_win`, and the exhaustive `minimax` search the computer
player uses.

The project has three modules, one per file:

- `Rules` (`rules.dfy`): the state as a `Game` value and the game's rules
  as functions on it — `NewGame` (`__init__`), `AvailableMoves`, `NumMoves`,
  `Play` (`add_move`) and `Outcome` (`check_win`) — with the state invariant
  `WellFormed` and the lemmas that `NewGame` establishes it and `Play` keeps it.
- `Search` (`search.dfy`): `minimax` as a recursive function of the state.
  `Explore` is the pair of lists `moves`/`scores` that minimax's loop builds,
  `Child` is the search of the copy in which one move was played, and
  `MaxOf`, `MinOf` and `IndexOf` are Python's `max`, `min` and `list.index`.
  The lemmas state the terminal scores, the max/min choice with its
  first-occurrence tie break, that the reported move is available, and that
  a winning move is taken at once; a concrete position checks the whole
  chain on one case.
- `Engine` (`engine.dfy`): the class itself, with an `array<char>` board and
  sequence fields updated in place. `AddMove`, `CheckWin` and `Minimax` are
  methods with the source's statements and loops, each proved to agree with
  the `Rules`/`Search` function on `Snapshot()`, the object's current value.
  `CopyOf` is the deep copy minimax makes of the game before each trial move.
  `Minimax` has no `modifies` clause, so the verifier checks that the
  searched game is never changed: every trial move is played on a fresh copy.

`add_move` checks neither the index nor the cell: a taken cell is simply
overwritten, which is what `AddMove` does.

`minimax` is modelled for states satisfying `Consistent`: the board has
nine cells, moves made plus cells left add up to nine, every move is a cell
index, and every player's move is in the combined list. This condition is
enough to make `allMoves[-1]` defined on a finished game and `max`/`min`
defined on an unfinished one. It is not needed for termination: the
source's recursion always ends, because each level fills one empty cell.
The constructor satisfies `Consistent`, and `add_move` on empty cells keeps
it (`WellFormed` includes it). `play_tictactoe` only ever plays such
cells: the player's move is checked against `get_available_moves`, and the
computer's move is an available one (`MinimaxMoveAvailable`). `add_move` on
a taken cell does build states outside `Consistent`. On those the source's
`minimax` may still return a result, or it may raise `ValueError` from
`max([])`; neither case is modelled.

## Model

| member | source | states |
|---|---|---|
| Rules.NewGame | TicTacToe.py:25-29 | the state `__init__` builds has no move made, player one to move, all nine cells available, and `check_win` reports it as not over with no winner |
| Rules.NewGameWellFormed | TicTacToe.py:23-29 | a new game (nine blank cells, no moves, player one to move) satisfies the state invariant and has all nine cells available |
| Engine.TicTacToe.constructor | TicTacToe.py:23-29 | the constructed object's state is the new game: nine `' '` cells, empty move lists, `currentPlayer == PLAYER_ONE`, and it satisfies the invariant |
| Rules.NumMoves | TicTacToe.py:32-34 | the number of moves is `len(allMoves)`, and on a well-formed game it equals nine minus the number of empty cells |
| Rules.AvailableFrom | TicTacToe.py:37-40 | the indices collected from position `k` on are exactly the empty cells from `k` on |
| Rules.AvailableMoves | TicTacToe.py:37-40 | an index is returned iff it is a board index whose cell is `' '` |
| Rules.AvailableFromAscending | TicTacToe.py:37-40 | the indices collected from `k` on are strictly ascending |
| Rules.AvailableMovesAscending | TicTacToe.py:37-40 | the available moves come in strictly ascending board order |
| Rules.FillRemovesOne | TicTacToe.py:68 | marking one empty cell removes exactly one index from the available moves |
| Rules.AllEmptyAvailable | TicTacToe.py:25 | on a blank board every cell is available |
| Rules.Play | TicTacToe.py:51-70 | playing an empty cell leaves exactly one available move fewer |
| Engine.TicTacToe.AddMove | TicTacToe.py:51-70 | the current player's mark is written to the cell (the cell is not checked), the index is appended to that player's list and to `allMoves`, the other list and all other cells are unchanged, `currentPlayer` becomes `(currentPlayer+1)%2`; on an empty cell the new state is `Play` of the old one and the invariant is kept |
| Rules.PlayKeepsConsistent | TicTacToe.py:51-70 | a move on an empty cell keeps the board size, the moves-plus-empty-cells count of nine, the moves within 0..8 and the player lists inside `allMoves` |
| Rules.PlayKeepsWellFormed | TicTacToe.py:51-70 | a move on an empty cell keeps the whole invariant: `currentPlayer == len(allMoves) % 2`, `len(allMoves) + len(get_available_moves()) == 9`, distinct moves in 0..8, player one's list exactly the entries of `allMoves` at even positions and player two's exactly those at odd positions, each in order, and the board agreeing with the lists |
| Rules.PlayKeepsPlayer | TicTacToe.py:67-70 | after a move the toggled `currentPlayer` is still `len(allMoves) % 2` |
| Rules.PlayKeepsDistinct | TicTacToe.py:67 | after a move on an empty cell `allMoves` still has no repeated index |
| Rules.WellFormedTurnsAlternate | TicTacToe.py:59-67 | in a well-formed game every move is in a player's list, and a move is in player one's list exactly when it sits at an even position of `allMoves` |
| Rules.TurnMovesHas | TicTacToe.py:59-67 | the entry at a position of parity `p` is in the list of the player who moves at that parity |
| Rules.TurnMovesFrom | TicTacToe.py:59-67 | every entry of a player's list sits at a position of that player's parity |
| Rules.TurnMovesParity | TicTacToe.py:59-67 | when `allMoves` has no repeated entry, an entry in a player's list sits at a position of that player's parity |
| Rules.PlayKeepsTurnOrder | TicTacToe.py:59-67 | after a move, player one's list is still exactly the even-position entries of `allMoves` in order, and player two's the odd-position ones |
| Rules.TurnMovesAppend | TicTacToe.py:59-67 | appending a move at position `len(allMoves)` extends the list of that position's parity by it and leaves the other list as it was |
| Rules.TurnMovesSplit | TicTacToe.py:59-67 | the even-position and odd-position entries together hold every entry of a list exactly as often as it occurs |
| Rules.PlayKeepsBoard | TicTacToe.py:59-68 | after a move, a cell shows `'x'` iff it is in player one's list, `'o'` iff in player two's, and `' '` iff it is in no move |
| Rules.ListsPartition | TicTacToe.py:59-67 | in a well-formed game each move is in exactly one player's list, and the two lists together hold each entry of `allMoves` exactly as often as it occurs there (equal multisets) |
| Rules.CoversIsSubset | TicTacToe.py:88-91 | `Covers(moves, combo)` holds iff the set of the line's cells is a subset of the set of the moves, as `set(combo).issubset(moves)` tests |
| Rules.LineOwner | TicTacToe.py:88-92 | the player credited with a line is player one or player two; player one whenever player one holds it, and otherwise, when the line is held at all, the player whose moves cover it |
| Rules.NoLineOnEmptyLists | TicTacToe.py:80-94 | with no moves made, the scan of `check_win` finds no held line and reports the game not over with no winner |
| Rules.ScanCombos | TicTacToe.py:80-92 | after the scan of the first `n` lines the game is over whenever nine moves were made |
| Rules.ScanCombosMeaning | TicTacToe.py:80-92 | after the first `n` lines: `over` iff nine moves were made or one of those lines is held by a player; `winner` is -1 iff no such line is held, otherwise the player of the last held line (player one is examined first within a line) |
| Rules.Outcome | TicTacToe.py:73-94 | a game with nine moves is over |
| Rules.OutcomeMeaning | TicTacToe.py:73-94 | `over` iff nine moves were made or some winning triple is a subset of one player's moves; `winner` is -1 iff no triple matches, otherwise the player of the last matching triple in `winningCombos` order |
| Engine.TicTacToe.CheckWin | TicTacToe.py:73-94 | the loop over the eight lines returns exactly `Outcome` of the current state |
| Rules.OverHasMoves | TicTacToe.py:151-154 | a finished consistent game has at least one move, so `allMoves[-1]` exists |
| Rules.TopRowWin | TicTacToe.py:73-94 | x completing the top row ends the game with player one as winner |
| Search.TerminalScoreSign | TicTacToe.py:156-163 | `TerminalScore`, the score of a finished game: after one to nine moves it lies in [-9, 9] and is negative exactly when player one won and positive exactly when player two won, as the source's comments say |
| Search.MaxOf | TicTacToe.py:187-188 | `max(scores)` is one of the scores and no score exceeds it |
| Search.MinOf | TicTacToe.py:189-190 | `min(scores)` is one of the scores and no score is below it |
| Search.IndexOf | TicTacToe.py:193 | `scores.index(x)` is the first position holding `x` |
| Search.Child | TicTacToe.py:172-177 | the search of the copy with one more move reports a cell index and a score within nine minus the moves made |
| Search.Explore | TicTacToe.py:166-184 | the loop builds one move and one score per available move, every move a cell index and every score within nine minus the moves made |
| Search.ExploreAt | TicTacToe.py:170-184 | entry `k` of `scores` is the child score for the `k`-th move; entry `k` of `moves` is that move when maximizing and the child's reported move when minimizing |
| Search.ExploreExtend | TicTacToe.py:170-184 | one turn of the loop appends exactly the child's score and the move to report to the two lists |
| Search.Minimax | TicTacToe.py:127-195 | the reported move is a cell index and every score lies in [-9, 9], within ten minus the moves made |
| Search.MinimaxAtTerminal | TicTacToe.py:151-163 | on a finished game the move is the last entry of `allMoves`, the score is `numMoves - 10` if player one won and `10 - numMoves` if player two won; the score is negative, positive or zero exactly when player one won, player two won, or nobody did |
| Search.MinimaxChoice | TicTacToe.py:165-193 | on an unfinished game the score is the largest child score when maximizing and the smallest when minimizing, taken at the first available move (ascending) that reaches it; the move is that available move when maximizing and the child's reported move when minimizing |
| Search.ExploreBest | TicTacToe.py:186-193 | the entry picked by `max`/`min` and `scores.index` is a child score no other child score beats, every earlier child score differs from it, and its `moves` entry is that available move (maximizing) or the child's move (minimizing) |
| Search.MinimaxMoveAvailable | TicTacToe.py:165-193 | on an unfinished game the reported move is one of the receiver's available moves, on minimizing levels too |
| Search.ReplyAvailable | TicTacToe.py:173-184 | the move a child search reports back to a minimizing level was available before the trial move |
| Search.ImmediateWin | TicTacToe.py:151-193 | a trial move's child score is ten minus the moves made after it iff that move wins at once for player two |
| Search.WinScoreReached | TicTacToe.py:165-193 | when some move wins at once for player two, the maximizing search scores ten minus the moves made after it |
| Search.QuickestWinTaken | TicTacToe.py:165-193 | when moves win at once for player two, the maximizing search returns the smallest such index with score ten minus the moves made after it |
| Search.FirstWinAt | TicTacToe.py:37-40 | in the ascending list of available moves, the first position whose move wins at once for player two holds the smallest such move |
| Search.MiddleRowGameConsistent | TicTacToe.py:37-40 | the position x at 0, 1, 6 and o at 3, 4 satisfies the search's condition |
| Search.MiddleRowBoardAvailable | TicTacToe.py:37-40 | that board's available moves are exactly 2, 5, 7, 8 |
| Search.MiddleRowBoardTail | TicTacToe.py:37-40 | that board's empty cells from 4 on are 5, 7, 8 |
| Search.MiddleRowGameOpen | TicTacToe.py:73-94 | that position is not finished and has no winner |
| Search.MiddleRowGameWinAtFive | TicTacToe.py:73-94 | o at 5 completes the middle row and wins |
| Search.MiddleRowGameNoWinAtTwo | TicTacToe.py:73-94 | o at 2 wins nothing at once |
| Search.CompletesMiddleRow | TicTacToe.py:127-195 | in that position the computer's search returns move 5 with score 4 (completing its row rather than blocking at 2) |
| Engine.TicTacToe.CopyOf | TicTacToe.py:173 | the copy has a fresh board array with the same cells and the same lists and player as the source |
| Engine.TicTacToe.TryMove | TicTacToe.py:172-177 | playing the move on a fresh copy and searching the copy for the other player returns exactly `Child` of the current state |
| Engine.TicTacToe.Minimax | TicTacToe.py:127-195 | the method's loop over the available moves returns exactly `Search.Minimax` of the current state, and it modifies nothing that existed before the call |

## Left out

- `print_board`, `get_player_move`, `print_game_instruc` and `play_tictactoe`: terminal output, keyboard input, the screen clear through `os.system`, sleeping, and the interactive game loop; they are I/O around the core.
- `copy.deepcopy` as a library routine: modelled only by what minimax needs of it, a fresh board array with the same cells and the same list values (`CopyOf`).
- Engine.TicTacToe.AddMove: requires `0 <= moveIndex < len(currentBoard)`; Python would raise `IndexError` for an index of 9 or more after the lists were already appended to, and would count a negative index from the end of the board.
- Search.Minimax: requires `Consistent`. Some states outside it are built by `add_move` on a taken cell (`play_tictactoe` never plays one). On such states the source either returns a result or raises `ValueError` from `max([])` or `min([])` (no empty cell, more than nine moves, no held line). Neither outcome is modelled.
- Whole-game claims such as the score of the search from the empty board or that the computer never loses: they need the search tree of a full game unfolded, and the code does not state them.
