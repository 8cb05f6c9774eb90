/** The game state of TicTacToe.py as a value: the board, the move lists,
    the turn toggle, and the operations on them (add_move, check_win,
    get_available_moves, get_num_moves). The class in engine.dfy keeps the
    same state in mutable fields and is proved to agree with these functions. */
module Rules {

  const PlayerOne: int := 0
  const PlayerTwo: int := 1
  /** `winner` reported by check_win when no winning line is held. */
  const NoWinner: int := -1

  const Empty: char := ' '
  const MarkOne: char := 'x'
  const MarkTwo: char := 'o'
  const BoardSize: int := 9

  /** The eight winning lines, in the order check_win scans them. */
  const WinningCombos: seq<seq<int>> :=
    [[0, 1, 2], [3, 4, 5], [6, 7, 8], [0, 3, 6], [1, 4, 7], [2, 5, 8], [0, 4, 8], [2, 4, 6]]

  datatype Game = Game(
    currentBoard: seq<char>,
    playerOneMoves: seq<int>,
    playerTwoMoves: seq<int>,
    allMoves: seq<int>,
    currentPlayer: int)

  /** What the search relies on: the moves made and the cells left add up
      to nine, and every move in a player's list is also in allMoves. */
  ghost predicate Consistent(g: Game) {
    && |g.currentBoard| == BoardSize
    && |g.allMoves| + |AvailableMoves(g.currentBoard)| == BoardSize
    && (forall j :: 0 <= j < |g.allMoves| ==> 0 <= g.allMoves[j] < BoardSize)
    && (forall m :: m in g.playerOneMoves || m in g.playerTwoMoves ==> m in g.allMoves)
  }

  /** The state invariant that every game built by NewGame and Play keeps. */
  ghost predicate WellFormed(g: Game) {
    && Consistent(g)
    && g.currentPlayer == |g.allMoves| % 2
    && Distinct(g.allMoves)
    && InTurnOrder(g)
    && BoardAgrees(g)
  }

  /** Each player's list holds exactly that player's entries of allMoves, in order. */
  ghost predicate InTurnOrder(g: Game) {
    && g.playerOneMoves == TurnMoves(g.allMoves, PlayerOne)
    && g.playerTwoMoves == TurnMoves(g.allMoves, PlayerTwo)
  }

  /** The entries of `all` at positions of parity `p` (0 or 1), in order:
      the moves of the player who moves when |allMoves| % 2 == p. */
  ghost function TurnMoves(all: seq<int>, p: int): (r: seq<int>) {
    if all == [] then []
    else (if p == PlayerOne then [all[0]] else []) + TurnMoves(all[1..], 1 - p)
  }

  /** The entries of both parities together are all of `all`, each as often
      as it occurs there. */
  lemma {:induction false} TurnMovesSplit(all: seq<int>, p: int)
    requires p == PlayerOne || p == PlayerTwo
    ensures multiset(TurnMoves(all, p)) + multiset(TurnMoves(all, 1 - p)) == multiset(all)
  {
    if all != [] {
      TurnMovesSplit(all[1..], 1 - p);
      assert all == [all[0]] + all[1..];
    }
  }

  /** A move appended at position |all| goes to the parity of |all|. */
  lemma {:induction false} TurnMovesAppend(all: seq<int>, x: int, p: int)
    requires p == PlayerOne || p == PlayerTwo
    ensures TurnMoves(all + [x], p) == TurnMoves(all, p) + (if |all| % 2 == p then [x] else [])
  {
    if all == [] {
      assert [x][1..] == [];
    } else {
      TurnMovesAppend(all[1..], x, 1 - p);
      assert (all + [x])[1..] == all[1..] + [x];
    }
  }

  /** The entry at a position of parity `p` is in the list for `p`. */
  lemma {:induction false} TurnMovesHas(all: seq<int>, p: int, j: int)
    requires p == PlayerOne || p == PlayerTwo
    requires 0 <= j < |all| && j % 2 == p
    ensures all[j] in TurnMoves(all, p)
  {
    if j > 0 {
      TurnMovesHas(all[1..], 1 - p, j - 1);
    }
  }

  /** Every entry of the list for `p` sits at a position of parity `p`. */
  lemma {:induction false} TurnMovesFrom(all: seq<int>, p: int, x: int)
    requires p == PlayerOne || p == PlayerTwo
    requires x in TurnMoves(all, p)
    ensures exists j :: 0 <= j < |all| && j % 2 == p && all[j] == x
  {
    if p == PlayerOne && x == all[0] {
      assert all[0] == x;
    } else {
      TurnMovesFrom(all[1..], 1 - p, x);
      var j :| 0 <= j < |all[1..]| && j % 2 == 1 - p && all[1..][j] == x;
      assert all[j + 1] == x;
    }
  }

  /** In a list without repeated entries, an entry in the list for `p` sits
      at a position of parity `p`. */
  lemma TurnMovesParity(all: seq<int>, p: int, j: int)
    requires p == PlayerOne || p == PlayerTwo
    requires Distinct(all) && 0 <= j < |all| && all[j] in TurnMoves(all, p)
    ensures j % 2 == p
  {
    TurnMovesFrom(all, p, all[j]);
    var k :| 0 <= k < |all| && k % 2 == p && all[k] == all[j];
    assert k == j;
  }

  /** No index occurs twice. */
  ghost predicate Distinct(s: seq<int>) {
    forall j, k :: 0 <= j < k < |s| ==> s[j] != s[k]
  }

  /** Every move is in one of the players' lists, and a move is in player
      one's list exactly when it sits at an even position of allMoves
      (WellFormedTurnsAlternate derives this from InTurnOrder). */
  ghost predicate TurnsAlternate(g: Game) {
    && (forall m :: m in g.allMoves ==> m in g.playerOneMoves || m in g.playerTwoMoves)
    && (forall j :: 0 <= j < |g.allMoves| ==> (g.allMoves[j] in g.playerOneMoves <==> j % 2 == 0))
  }

  /** Each cell shows the mark of the player whose list holds it, and is
      empty exactly when no move was made there. */
  ghost predicate BoardAgrees(g: Game)
    requires |g.currentBoard| == BoardSize
  {
    forall m :: 0 <= m < BoardSize ==>
      && (g.currentBoard[m] == MarkOne <==> m in g.playerOneMoves)
      && (g.currentBoard[m] == MarkTwo <==> m in g.playerTwoMoves)
      && (g.currentBoard[m] == Empty <==> m !in g.allMoves)
  }

  /** The indices from `k` on whose cell is empty, in ascending order. */
  function AvailableFrom(board: seq<char>, k: nat): (r: seq<int>)
    requires k <= |board|
    ensures forall j :: 0 <= j < |r| ==> k <= r[j] < |board| && board[r[j]] == Empty
    ensures forall i :: k <= i < |board| && board[i] == Empty ==> i in r
    decreases |board| - k
  {
    if k == |board| then []
    else if board[k] == Empty then [k] + AvailableFrom(board, k + 1)
    else AvailableFrom(board, k + 1)
  }

  /** Each element is smaller than every later one. */
  predicate StrictlyAscending(s: seq<int>) {
    forall j, l :: 0 <= j < l < |s| ==> s[j] < s[l]
  }

  /** The indices available from `k` come in strictly ascending order. */
  lemma {:induction false} AvailableFromAscending(board: seq<char>, k: nat)
    requires k <= |board|
    ensures StrictlyAscending(AvailableFrom(board, k))
    decreases |board| - k
  {
    if k < |board| {
      var rest := AvailableFrom(board, k + 1);
      AvailableFromAscending(board, k + 1);
      if board[k] == Empty {
        assert forall j :: 0 <= j < |rest| ==> k < rest[j];
        PrependAscending(k, rest);
      }
    }
  }

  /** A value below every element of an ascending sequence may be put in front. */
  lemma PrependAscending(x: int, s: seq<int>)
    requires StrictlyAscending(s) && forall j :: 0 <= j < |s| ==> x < s[j]
    ensures StrictlyAscending([x] + s)
  {
  }

  /** get_available_moves: exactly the indices whose cell is empty (their
      order is stated by AvailableMovesAscending). */
  function AvailableMoves(board: seq<char>): (r: seq<int>)
    ensures forall i :: i in r <==> 0 <= i < |board| && board[i] == Empty
  {
    AvailableFrom(board, 0)
  }

  /** get_available_moves lists the empty cells in strictly ascending order. */
  lemma AvailableMovesAscending(board: seq<char>)
    ensures StrictlyAscending(AvailableMoves(board))
  {
    assert AvailableMoves(board) == AvailableFrom(board, 0);
    AvailableFromAscending(board, 0);
  }

  /** Filling one empty cell removes exactly one index from the ones available from `k`. */
  lemma {:induction false} FillRemovesOne(board: seq<char>, i: int, c: char, k: nat)
    requires k <= |board| && 0 <= i < |board| && board[i] == Empty && c != Empty
    ensures |AvailableFrom(board[i := c], k)| == |AvailableFrom(board, k)| - (if k <= i then 1 else 0)
    decreases |board| - k
  {
    if k < |board| {
      FillRemovesOne(board, i, c, k + 1);
    }
  }

  /** On a board whose cells from `k` on are all empty, every one of them is available. */
  lemma {:induction false} AllEmptyAvailable(board: seq<char>, k: nat)
    requires k <= |board|
    requires forall j :: k <= j < |board| ==> board[j] == Empty
    ensures |AvailableFrom(board, k)| == |board| - k
    decreases |board| - k
  {
    if k < |board| {
      AllEmptyAvailable(board, k + 1);
    }
  }

  /** The game state built by __init__: no move made, every cell available,
      player one to move, and the game not over. */
  function NewGame(): (r: Game)
    ensures NumMoves(r) == 0 && r.currentPlayer == PlayerOne
    ensures |AvailableMoves(r.currentBoard)| == BoardSize
    ensures Outcome(r) == (NoWinner, false)
  {
    var board := seq(BoardSize, _ => Empty);
    AllEmptyAvailable(board, 0);
    NoLineOnEmptyLists(Game(board, [], [], [], PlayerOne), |WinningCombos|);
    Game(board, [], [], [], PlayerOne)
  }

  /** A new game is well formed: all nine cells are available and no move was made. */
  lemma NewGameWellFormed()
    ensures WellFormed(NewGame())
    ensures |AvailableMoves(NewGame().currentBoard)| == BoardSize
  {
    var g := NewGame();
    AllEmptyAvailable(g.currentBoard, 0);
    assert Consistent(g);
    assert BoardAgrees(g) by {
      forall m | 0 <= m < BoardSize
        ensures g.currentBoard[m] == Empty
      {
      }
    }
  }

  /** get_num_moves: the length of allMoves, which on a well-formed game
      is also the number of cells that are no longer empty. */
  function NumMoves(g: Game): (n: nat)
    ensures WellFormed(g) ==> n == BoardSize - |AvailableMoves(g.currentBoard)|
  {
    |g.allMoves|
  }

  /** add_move: the player to move marks cell `i`, the move is recorded in
      that player's list and in allMoves, and the turn passes. The source
      does not check the cell; callers only ever pass an empty one. */
  function Play(g: Game, i: int): (r: Game)
    requires 0 <= i < |g.currentBoard| && g.currentBoard[i] == Empty
    ensures |AvailableMoves(r.currentBoard)| == |AvailableMoves(g.currentBoard)| - 1
  {
    var mark := if g.currentPlayer == PlayerOne then MarkOne else MarkTwo;
    FillRemovesOne(g.currentBoard, i, mark, 0);
    if g.currentPlayer == PlayerOne then
      Game(g.currentBoard[i := mark], g.playerOneMoves + [i], g.playerTwoMoves,
           g.allMoves + [i], (g.currentPlayer + 1) % 2)
    else
      Game(g.currentBoard[i := mark], g.playerOneMoves, g.playerTwoMoves + [i],
           g.allMoves + [i], (g.currentPlayer + 1) % 2)
  }

  /** add_move keeps what the search relies on. */
  lemma PlayKeepsConsistent(g: Game, i: int)
    requires 0 <= i < |g.currentBoard| && g.currentBoard[i] == Empty
    requires Consistent(g)
    ensures Consistent(Play(g, i))
  {
  }

  /** add_move keeps the state invariant. */
  lemma PlayKeepsWellFormed(g: Game, i: int)
    requires 0 <= i < |g.currentBoard| && g.currentBoard[i] == Empty
    requires WellFormed(g)
    ensures WellFormed(Play(g, i))
  {
    PlayKeepsConsistent(g, i);
    PlayKeepsDistinct(g, i);
    PlayKeepsTurnOrder(g, i);
    PlayKeepsBoard(g, i);
    PlayKeepsPlayer(g, i);
  }

  /** The turn toggle and the parity of the number of moves both flip. */
  lemma PlayKeepsPlayer(g: Game, i: int)
    requires 0 <= i < |g.currentBoard| && g.currentBoard[i] == Empty
    requires g.currentPlayer == |g.allMoves| % 2
    ensures Play(g, i).currentPlayer == |Play(g, i).allMoves| % 2
  {
  }

  /** The cell played was empty, so its index is new to allMoves. */
  lemma PlayKeepsDistinct(g: Game, i: int)
    requires 0 <= i < |g.currentBoard| && g.currentBoard[i] == Empty
    requires WellFormed(g)
    ensures Distinct(Play(g, i).allMoves)
  {
  }

  /** The new move is appended to the list of the player whose turn it was,
      which is the list of the entries of that parity. */
  lemma PlayKeepsTurnOrder(g: Game, i: int)
    requires 0 <= i < |g.currentBoard| && g.currentBoard[i] == Empty
    requires WellFormed(g)
    ensures InTurnOrder(Play(g, i))
  {
    TurnMovesAppend(g.allMoves, i, PlayerOne);
    TurnMovesAppend(g.allMoves, i, PlayerTwo);
  }

  /** In a well-formed game every move is in a player's list, and player one
      made exactly the moves at even positions: allMoves has no repeated
      entry, so a move at an odd position cannot also be one of player one's. */
  lemma WellFormedTurnsAlternate(g: Game)
    requires WellFormed(g)
    ensures TurnsAlternate(g)
  {
    var all := g.allMoves;
    forall m | m in all
      ensures m in g.playerOneMoves || m in g.playerTwoMoves
    {
      var j :| 0 <= j < |all| && all[j] == m;
      TurnMovesHas(all, j % 2, j);
    }
    forall j | 0 <= j < |all|
      ensures all[j] in g.playerOneMoves <==> j % 2 == 0
    {
      if j % 2 == 0 {
        TurnMovesHas(all, PlayerOne, j);
      } else if all[j] in g.playerOneMoves {
        TurnMovesParity(all, PlayerOne, j);
      }
    }
  }

  /** The mark written is the one of the player whose list receives the move. */
  lemma PlayKeepsBoard(g: Game, i: int)
    requires 0 <= i < |g.currentBoard| && g.currentBoard[i] == Empty
    requires WellFormed(g)
    ensures |Play(g, i).currentBoard| == BoardSize && BoardAgrees(Play(g, i))
  {
  }

  /** The two players' lists split allMoves: every move is in exactly one of
      them, and together they hold each move exactly once. */
  lemma ListsPartition(g: Game)
    requires WellFormed(g)
    ensures forall m :: m in g.allMoves <==> m in g.playerOneMoves || m in g.playerTwoMoves
    ensures forall m :: !(m in g.playerOneMoves && m in g.playerTwoMoves)
    ensures multiset(g.playerOneMoves) + multiset(g.playerTwoMoves) == multiset(g.allMoves)
  {
    WellFormedTurnsAlternate(g);
    TurnMovesSplit(g.allMoves, PlayerOne);
  }

  /** `set(combo).issubset(moves)`. */
  predicate Covers(moves: seq<int>, combo: seq<int>) {
    forall k :: 0 <= k < |combo| ==> combo[k] in moves
  }

  /** Covers is the subset test on the sets of the two lists. */
  lemma CoversIsSubset(moves: seq<int>, combo: seq<int>)
    ensures Covers(moves, combo) <==> (set k | 0 <= k < |combo| :: combo[k]) <= (set m | m in moves)
  {
    var line := set k | 0 <= k < |combo| :: combo[k];
    var held := set m | m in moves;
    if Covers(moves, combo) {
      forall x | x in line
        ensures x in held
      {
        var k :| 0 <= k < |combo| && combo[k] == x;
      }
    } else {
      var k :| 0 <= k < |combo| && combo[k] !in moves;
      assert combo[k] in line && combo[k] !in held;
    }
  }

  /** Winning line `c` is held by one of the players. */
  predicate LineTaken(g: Game, c: int)
    requires 0 <= c < |WinningCombos|
  {
    Covers(g.playerOneMoves, WinningCombos[c]) || Covers(g.playerTwoMoves, WinningCombos[c])
  }

  /** The player check_win credits with line `c` (player one is examined first). */
  function LineOwner(g: Game, c: int): (p: int)
    requires 0 <= c < |WinningCombos|
    ensures p == PlayerOne || p == PlayerTwo
    ensures Covers(g.playerOneMoves, WinningCombos[c]) ==> p == PlayerOne
    ensures LineTaken(g, c) ==>
              Covers(if p == PlayerOne then g.playerOneMoves else g.playerTwoMoves, WinningCombos[c])
  {
    if Covers(g.playerOneMoves, WinningCombos[c]) then PlayerOne else PlayerTwo
  }

  /** `(winner, over)` after check_win's loop has looked at the first `n` lines. */
  function ScanCombos(g: Game, n: nat): (r: (int, bool))
    requires n <= |WinningCombos|
    ensures |g.allMoves| == BoardSize ==> r.1
  {
    if n == 0 then (NoWinner, |g.allMoves| == BoardSize)
    else
      var combo := WinningCombos[n - 1];
      if Covers(g.playerOneMoves, combo) then (PlayerOne, true)
      else if Covers(g.playerTwoMoves, combo) then (PlayerTwo, true)
      else ScanCombos(g, n - 1)
  }

  /** After `n` lines, `over` holds iff nine moves were made or one of those
      lines is held, and `winner` is the owner of the last held one, or
      NoWinner when none is. */
  lemma {:induction false} ScanCombosMeaning(g: Game, n: nat)
    requires n <= |WinningCombos|
    ensures var r := ScanCombos(g, n);
      && (r.0 == NoWinner || r.0 == PlayerOne || r.0 == PlayerTwo)
      && (r.1 <==> |g.allMoves| == BoardSize || exists c :: 0 <= c < n && LineTaken(g, c))
      && (r.0 == NoWinner <==> forall c :: 0 <= c < n ==> !LineTaken(g, c))
      && (r.0 != NoWinner ==>
            exists c :: 0 <= c < n && LineTaken(g, c) && r.0 == LineOwner(g, c)
              && forall d :: c < d < n ==> !LineTaken(g, d))
  {
    if n > 0 {
      ScanCombosMeaning(g, n - 1);
      if Covers(g.playerOneMoves, WinningCombos[n - 1]) {
        assert LineTaken(g, n - 1) && LineOwner(g, n - 1) == PlayerOne;
      } else if Covers(g.playerTwoMoves, WinningCombos[n - 1]) {
        assert LineTaken(g, n - 1) && LineOwner(g, n - 1) == PlayerTwo;
      } else {
        assert !LineTaken(g, n - 1);
      }
    }
  }

  /** With both move lists empty, no line is held after any number of lines. */
  lemma {:induction false} NoLineOnEmptyLists(g: Game, n: nat)
    requires n <= |WinningCombos|
    requires g.playerOneMoves == [] && g.playerTwoMoves == [] && g.allMoves == []
    ensures ScanCombos(g, n) == (NoWinner, false)
  {
    if n > 0 {
      assert |WinningCombos[n - 1]| == 3;
      assert WinningCombos[n - 1][0] !in g.playerOneMoves + g.playerTwoMoves;
      NoLineOnEmptyLists(g, n - 1);
    }
  }

  /** check_win; its meaning is stated by OutcomeMeaning. */
  function Outcome(g: Game): (r: (int, bool))
    ensures |g.allMoves| == BoardSize ==> r.1
  {
    ScanCombos(g, |WinningCombos|)
  }

  /** check_win: `over` holds iff nine moves were made or a winning line is
      held; `winner` is NoWinner iff no line is held, and otherwise the owner
      of the last held line in scan order. */
  lemma OutcomeMeaning(g: Game)
    ensures var r := Outcome(g);
      && (r.0 == NoWinner || r.0 == PlayerOne || r.0 == PlayerTwo)
      && (r.1 <==> |g.allMoves| == BoardSize || exists c :: 0 <= c < |WinningCombos| && LineTaken(g, c))
      && (r.0 == NoWinner <==> forall c :: 0 <= c < |WinningCombos| ==> !LineTaken(g, c))
      && (r.0 != NoWinner ==>
            exists c :: 0 <= c < |WinningCombos| && LineTaken(g, c) && r.0 == LineOwner(g, c)
              && forall d :: c < d < |WinningCombos| ==> !LineTaken(g, d))
  {
    ScanCombosMeaning(g, |WinningCombos|);
  }

  /** A finished consistent game has at least one move, so allMoves[-1] exists. */
  lemma OverHasMoves(g: Game)
    requires Consistent(g) && Outcome(g).1
    ensures 0 < |g.allMoves| <= BoardSize
  {
    OutcomeMeaning(g);
    if |g.allMoves| != BoardSize {
      var c :| 0 <= c < |WinningCombos| && LineTaken(g, c);
      assert |WinningCombos[c]| == 3;
      assert WinningCombos[c][0] in g.allMoves;
    }
  }

  /** Player one with x at 0 and 1 (o at 3 and 4) plays 2 and completes the top row. */
  lemma TopRowWin()
    ensures var g := Game([MarkOne, MarkOne, Empty, MarkTwo, MarkTwo, Empty, Empty, Empty, Empty],
                          [0, 1], [3, 4], [0, 3, 1, 4], PlayerOne);
            Outcome(Play(g, 2)) == (PlayerOne, true)
  {
    var g := Game([MarkOne, MarkOne, Empty, MarkTwo, MarkTwo, Empty, Empty, Empty, Empty],
                  [0, 1], [3, 4], [0, 3, 1, 4], PlayerOne);
    var h := Play(g, 2);
    assert h.playerOneMoves == [0, 1, 2] && h.playerTwoMoves == [3, 4];
    assert LineTaken(h, 0);
    forall c | 0 <= c < |WinningCombos|
      ensures !Covers(h.playerTwoMoves, WinningCombos[c])
    {
      assert WinningCombos[c][0] !in h.playerTwoMoves || WinningCombos[c][1] !in h.playerTwoMoves
          || WinningCombos[c][2] !in h.playerTwoMoves;
    }
    OutcomeMeaning(h);
  }
}
