/** The TicTacToe class itself: a mutable game whose methods change its
    board and move lists in place. Each method is proved against the value
    model of Rules and Search through Snapshot, the game's current value. */
module Engine {
  import opened Rules
  import Search

  class TicTacToe {
    var currentBoard: array<char>
    var playerOneMoves: seq<int>
    var playerTwoMoves: seq<int>
    var allMoves: seq<int>
    var currentPlayer: int

    /** The game's state as a value. */
    function Snapshot(): Game
      reads this, currentBoard
    {
      Game(currentBoard[..], playerOneMoves, playerTwoMoves, allMoves, currentPlayer)
    }

    /** The invariant every reachable game keeps. */
    ghost predicate Valid()
      reads this, currentBoard
    {
      WellFormed(Snapshot())
    }

    /** A new game: nine empty cells, no moves, player one to play. */
    constructor()
      ensures Snapshot() == NewGame()
      ensures Valid() && currentBoard.Length == BoardSize
      ensures fresh(currentBoard)
    {
      currentBoard := new char[BoardSize](_ => Empty);
      playerOneMoves := [];
      playerTwoMoves := [];
      allMoves := [];
      currentPlayer := PlayerOne;
      new;
      ghost var start := NewGame();
      assert currentBoard[..] == start.currentBoard;
      assert Snapshot() == start;
      NewGameWellFormed();
    }

    /** A deep copy of `source`: a board of its own with the same cells, and
        the same move lists and player, so that moves on the copy leave
        `source` as it was. */
    constructor CopyOf(source: TicTacToe)
      ensures Snapshot() == source.Snapshot()
      ensures fresh(currentBoard)
    {
      var board := new char[source.currentBoard.Length];
      forall i | 0 <= i < board.Length {
        board[i] := source.currentBoard[i];
      }
      currentBoard := board;
      playerOneMoves := source.playerOneMoves;
      playerTwoMoves := source.playerTwoMoves;
      allMoves := source.allMoves;
      currentPlayer := source.currentPlayer;
    }

    /** add_move: the current player's mark goes to `moveIndex`, the move is
        appended to that player's list and to the list of all moves, and the
        turn passes. The cell is not checked: a taken cell is overwritten.
        On an empty cell this is Play, and it keeps the game valid. */
    method AddMove(moveIndex: int)
      requires 0 <= moveIndex < currentBoard.Length
      modifies this, currentBoard
      ensures currentBoard == old(currentBoard)
      ensures currentBoard[..] == old(currentBoard[..])[moveIndex := if old(currentPlayer) == PlayerOne then MarkOne else MarkTwo]
      ensures old(currentPlayer) == PlayerOne ==>
                playerOneMoves == old(playerOneMoves) + [moveIndex] && playerTwoMoves == old(playerTwoMoves)
      ensures old(currentPlayer) != PlayerOne ==>
                playerTwoMoves == old(playerTwoMoves) + [moveIndex] && playerOneMoves == old(playerOneMoves)
      ensures allMoves == old(allMoves) + [moveIndex]
      ensures currentPlayer == (old(currentPlayer) + 1) % 2
      ensures old(currentBoard[moveIndex]) == Empty ==> Snapshot() == Play(old(Snapshot()), moveIndex)
      ensures old(currentBoard[moveIndex]) == Empty && old(Valid()) ==> Valid()
    {
      ghost var before := Snapshot();
      var symbol: char;
      if currentPlayer == PlayerOne {
        playerOneMoves := playerOneMoves + [moveIndex];
        symbol := MarkOne;
      } else {
        playerTwoMoves := playerTwoMoves + [moveIndex];
        symbol := MarkTwo;
      }
      allMoves := allMoves + [moveIndex];
      currentBoard[moveIndex] := symbol;
      currentPlayer := (currentPlayer + 1) % 2;
      if before.currentBoard[moveIndex] == Empty {
        assert Snapshot() == Play(before, moveIndex);
        if WellFormed(before) {
          PlayKeepsWellFormed(before, moveIndex);
        }
      }
    }

    /** check_win: a pass over the eight lines in order, where a line held by
        player one, or else by player two, makes that player the winner and
        ends the game; a later line overrides an earlier one. With no line
        held, the game is over exactly when nine moves were made. */
    method CheckWin() returns (winner: int, over: bool)
      ensures (winner, over) == Outcome(Snapshot())
    {
      winner := NoWinner;
      over := |allMoves| == BoardSize;
      for c := 0 to |WinningCombos|
        invariant (winner, over) == ScanCombos(Snapshot(), c)
      {
        var combo := WinningCombos[c];
        if Covers(playerOneMoves, combo) {
          winner, over := PlayerOne, true;
        } else if Covers(playerTwoMoves, combo) {
          winner, over := PlayerTwo, true;
        }
      }
    }

    /** minimax: on a finished game, the last move and its score; otherwise
        every available move is tried in ascending order (TryMove), and the
        first move with the best score is reported: the highest score when
        maximizing, the lowest when minimizing. The game itself is left as
        it was: the method modifies nothing that existed before the call. */
    method Minimax(maximize: bool) returns (bestMove: int, bestScore: int)
      requires Consistent(Snapshot())
      ensures (bestMove, bestScore) == Search.Minimax(Snapshot(), maximize)
      decreases |AvailableMoves(currentBoard[..])|, 1
    {
      ghost var g := Snapshot();
      var winner, isOver := CheckWin();
      if isOver {
        OverHasMoves(g);
        var numMoves: int := NumMoves(Snapshot());
        bestMove := allMoves[|allMoves| - 1];
        if winner == PlayerOne {
          bestScore := numMoves - 10;
        } else if winner == PlayerTwo {
          bestScore := 10 - numMoves;
        } else {
          bestScore := 0;
        }
        assert (bestMove, bestScore) == Search.Minimax(g, maximize);
      } else {
        var available := AvailableMoves(currentBoard[..]);
        var moves: seq<int> := [];
        var scores: seq<int> := [];
        for k := 0 to |available|
          invariant (moves, scores) == Search.Explore(g, maximize, available[..k])
        {
          var possibleMove := available[k];
          var nextMove, nextScore := TryMove(maximize, possibleMove);
          Search.ExploreExtend(g, maximize, available, k, (nextMove, nextScore));
          scores := scores + [nextScore];
          if maximize {
            moves := moves + [possibleMove];
          } else {
            moves := moves + [nextMove];
          }
        }
        assert available[..|available|] == available;
        if maximize {
          bestScore := Search.MaxOf(scores);
        } else {
          bestScore := Search.MinOf(scores);
        }
        bestMove := moves[Search.IndexOf(scores, bestScore)];
        assert (bestMove, bestScore) == Search.Minimax(g, maximize);
      }
    }

    /** One turn of minimax's loop: `possibleMove` is played on a deep copy
        of this game, and the copy is searched for the other player. */
    method TryMove(maximize: bool, possibleMove: int) returns (nextMove: int, nextScore: int)
      requires Consistent(Snapshot()) && possibleMove in AvailableMoves(currentBoard[..])
      ensures (nextMove, nextScore) == Search.Child(Snapshot(), maximize, possibleMove)
      decreases |AvailableMoves(currentBoard[..])|, 0
    {
      var possibleGame := new TicTacToe.CopyOf(this);
      possibleGame.AddMove(possibleMove);
      PlayKeepsConsistent(Snapshot(), possibleMove);
      nextMove, nextScore := possibleGame.Minimax(!maximize);
    }
  }
}
