/** The exhaustive minimax search of TicTacToe.minimax, as a function of the
    game state. Each continuation is searched on its own copy of the state
    (Play returns a new value), so no branch can see another's moves. */
module Search {
  import opened Rules

  /** The score of a finished game: negative when player one won, positive
      when player two (the computer) won, zero on a draw; a quicker result
      is worth more. */
  function TerminalScore(winner: int, numMoves: int): (s: int) {
    if winner == PlayerOne then numMoves - 10
    else if winner == PlayerTwo then 10 - numMoves
    else 0
  }

  /** After one to nine moves the terminal score lies in [-9, 9], and its
      sign says who won: negative exactly for player one, positive exactly
      for player two. */
  lemma TerminalScoreSign(winner: int, numMoves: int)
    requires 1 <= numMoves <= BoardSize
    ensures var s := TerminalScore(winner, numMoves);
      && -9 <= s <= 9
      && (s < 0 <==> winner == PlayerOne)
      && (s > 0 <==> winner == PlayerTwo)
  {
  }

  /** Python's `max` over a non-empty list of scores. */
  function MaxOf(s: seq<int>): (m: int)
    requires |s| > 0
    ensures m in s
    ensures forall j :: 0 <= j < |s| ==> s[j] <= m
  {
    if |s| == 1 then s[0]
    else
      var rest := MaxOf(s[1..]);
      if s[0] >= rest then s[0] else rest
  }

  /** Python's `min` over a non-empty list of scores. */
  function MinOf(s: seq<int>): (m: int)
    requires |s| > 0
    ensures m in s
    ensures forall j :: 0 <= j < |s| ==> m <= s[j]
  {
    if |s| == 1 then s[0]
    else
      var rest := MinOf(s[1..]);
      if s[0] <= rest then s[0] else rest
  }

  /** Python's `list.index`: the first position holding `x`. */
  function IndexOf(s: seq<int>, x: int): (k: nat)
    requires x in s
    ensures k < |s| && s[k] == x
    ensures forall j :: 0 <= j < k ==> s[j] != x
  {
    if s[0] == x then 0 else 1 + IndexOf(s[1..], x)
  }

  /** What the search reports for the copy of `g` in which `m` was played,
      searched with the other player's goal. */
  function Child(g: Game, maximize: bool, m: int): (r: (int, int))
    requires Consistent(g) && m in AvailableMoves(g.currentBoard)
    ensures 0 <= r.0 < BoardSize
    ensures -(BoardSize - |g.allMoves|) <= r.1 <= BoardSize - |g.allMoves|
    decreases |AvailableMoves(g.currentBoard)|, 0, 0
  {
    PlayKeepsConsistent(g, m);
    Minimax(Play(g, m), !maximize)
  }

  /** The `moves` and `scores` lists that minimax's loop builds over `avail`:
      one entry per move, in order. On a maximizing level the move is the one
      played here, on a minimizing level the move the child search reported. */
  function Explore(g: Game, maximize: bool, avail: seq<int>): (r: (seq<int>, seq<int>))
    requires Consistent(g)
    requires forall j :: 0 <= j < |avail| ==> avail[j] in AvailableMoves(g.currentBoard)
    ensures |r.0| == |avail| && |r.1| == |avail|
    ensures forall k :: 0 <= k < |avail| ==> 0 <= r.0[k] < BoardSize
    ensures forall k :: 0 <= k < |avail| ==> -(BoardSize - |g.allMoves|) <= r.1[k] <= BoardSize - |g.allMoves|
    decreases |AvailableMoves(g.currentBoard)|, 1, |avail|
  {
    if avail == [] then ([], [])
    else
      var prefix := avail[..|avail| - 1];
      assert forall j :: 0 <= j < |prefix| ==> prefix[j] == avail[j];
      var front := Explore(g, maximize, prefix);
      var m := avail[|avail| - 1];
      var (nextMove, nextScore) := Child(g, maximize, m);
      (front.0 + [if maximize then m else nextMove], front.1 + [nextScore])
  }

  /** Entry `k` of the lists is what the search of the copy where `avail[k]`
      was played reports: its score, and on a maximizing level the move
      `avail[k]` itself, on a minimizing level the child's reported move. */
  lemma {:induction false} ExploreAt(g: Game, maximize: bool, avail: seq<int>, k: int)
    requires Consistent(g)
    requires forall j :: 0 <= j < |avail| ==> avail[j] in AvailableMoves(g.currentBoard)
    requires 0 <= k < |avail|
    ensures Explore(g, maximize, avail).1[k] == Child(g, maximize, avail[k]).1
    ensures Explore(g, maximize, avail).0[k] == (if maximize then avail[k] else Child(g, maximize, avail[k]).0)
    decreases |avail|
  {
    if k < |avail| - 1 {
      var prefix := avail[..|avail| - 1];
      assert prefix[k] == avail[k];
      ExploreAt(g, maximize, prefix, k);
    }
  }

  /** One more turn of minimax's loop: after the first `k` moves of `avail`,
      the search of the copy where `avail[k]` was played reports `next`, and
      the lists grow by one entry for it. */
  lemma ExploreExtend(g: Game, maximize: bool, avail: seq<int>, k: int, next: (int, int))
    requires Consistent(g) && avail == AvailableMoves(g.currentBoard) && 0 <= k < |avail|
    requires next == Child(g, maximize, avail[k])
    ensures var front := Explore(g, maximize, avail[..k]);
            Explore(g, maximize, avail[..k + 1])
              == (front.0 + [if maximize then avail[k] else next.0], front.1 + [next.1])
  {
    assert avail[..k + 1][..k] == avail[..k];
  }

  /** minimax: `(bestMove, bestScore)` for `g`. The move is always a cell
      index, and the score never exceeds, in size, ten minus the moves made. */
  function Minimax(g: Game, maximize: bool): (r: (int, int))
    requires Consistent(g)
    ensures 0 <= r.0 < BoardSize
    ensures -(10 - |g.allMoves|) <= r.1 <= 10 - |g.allMoves|
    ensures -9 <= r.1 <= 9
    decreases |AvailableMoves(g.currentBoard)|, 2, 0
  {
    var (winner, isOver) := Outcome(g);
    if isOver then
      OverHasMoves(g);
      (g.allMoves[|g.allMoves| - 1], TerminalScore(winner, NumMoves(g)))
    else
      var (moves, scores) := Explore(g, maximize, AvailableMoves(g.currentBoard));
      var bestScore := if maximize then MaxOf(scores) else MinOf(scores);
      (moves[IndexOf(scores, bestScore)], bestScore)
  }

  /** On a finished game the search reports the last move played, and the
      sign of the score says who won: negative for player one, positive for
      player two, zero for a draw. */
  lemma MinimaxAtTerminal(g: Game, maximize: bool)
    requires Consistent(g) && Outcome(g).1
    ensures var r := Minimax(g, maximize);
            var n := |g.allMoves|;
            var winner := Outcome(g).0;
            && 0 < n && r.0 == g.allMoves[n - 1]
            && (winner == PlayerOne ==> r.1 == n - 10)
            && (winner == PlayerTwo ==> r.1 == 10 - n)
            && (r.1 < 0 <==> winner == PlayerOne)
            && (r.1 > 0 <==> winner == PlayerTwo)
            && (r.1 == 0 <==> winner == NoWinner)
  {
    OverHasMoves(g);
    OutcomeMeaning(g);
  }

  /** On an unfinished game the search picks, among the available moves in
      ascending order, the first whose child score is extremal: the largest
      when maximizing, the smallest when minimizing. A maximizing level
      reports that move itself, a minimizing level the move its child reported. */
  lemma MinimaxChoice(g: Game, maximize: bool)
    requires Consistent(g) && !Outcome(g).1
    ensures var avail := AvailableMoves(g.currentBoard);
            var r := Minimax(g, maximize);
            exists k :: 0 <= k < |avail|
              && r.1 == Child(g, maximize, avail[k]).1
              && r.0 == (if maximize then avail[k] else Child(g, maximize, avail[k]).0)
              && (forall j :: 0 <= j < |avail| ==>
                    if maximize then Child(g, maximize, avail[j]).1 <= r.1
                    else r.1 <= Child(g, maximize, avail[j]).1)
              && (forall j :: 0 <= j < k ==> Child(g, maximize, avail[j]).1 != r.1)
  {
    var avail := AvailableMoves(g.currentBoard);
    var (moves, scores) := Explore(g, maximize, avail);
    var best := if maximize then MaxOf(scores) else MinOf(scores);
    var k := IndexOf(scores, best);
    assert Minimax(g, maximize) == (moves[k], best);
    ExploreBest(g, maximize, avail, best, k);
  }

  /** The entry minimax picks from the lists Explore builds: the best child
      score, at the first position that reaches it. */
  lemma ExploreBest(g: Game, maximize: bool, avail: seq<int>, best: int, k: int)
    requires Consistent(g) && |avail| > 0
    requires forall j :: 0 <= j < |avail| ==> avail[j] in AvailableMoves(g.currentBoard)
    requires var scores := Explore(g, maximize, avail).1;
      best == (if maximize then MaxOf(scores) else MinOf(scores)) && k == IndexOf(scores, best)
    ensures 0 <= k < |avail|
    ensures best == Child(g, maximize, avail[k]).1
    ensures Explore(g, maximize, avail).0[k] == (if maximize then avail[k] else Child(g, maximize, avail[k]).0)
    ensures forall j :: 0 <= j < |avail| ==>
              if maximize then Child(g, maximize, avail[j]).1 <= best
              else best <= Child(g, maximize, avail[j]).1
    ensures forall j :: 0 <= j < k ==> Child(g, maximize, avail[j]).1 != best
  {
    ExploreAt(g, maximize, avail, k);
    forall j | 0 <= j < |avail|
      ensures if maximize then Child(g, maximize, avail[j]).1 <= best
              else best <= Child(g, maximize, avail[j]).1
    {
      ExploreAt(g, maximize, avail, j);
    }
    forall j | 0 <= j < k
      ensures Child(g, maximize, avail[j]).1 != best
    {
      ExploreAt(g, maximize, avail, j);
    }
  }

  /** On an unfinished game the reported move is one of the available moves,
      on minimizing levels too, where it comes from the level below. */
  lemma {:induction false} MinimaxMoveAvailable(g: Game, maximize: bool)
    requires Consistent(g) && !Outcome(g).1
    ensures Minimax(g, maximize).0 in AvailableMoves(g.currentBoard)
    decreases |AvailableMoves(g.currentBoard)|, 1
  {
    MinimaxChoice(g, maximize);
    var avail := AvailableMoves(g.currentBoard);
    var r := Minimax(g, maximize);
    var k :| 0 <= k < |avail|
      && r.0 == (if maximize then avail[k] else Child(g, maximize, avail[k]).0);
    if !maximize {
      ReplyAvailable(g, avail[k]);
    }
  }

  /** The move a maximizing child search reports after `m` is a move that
      was available before `m`: `m` itself if that ended the game, otherwise
      one of the child's own available moves. */
  lemma {:induction false} ReplyAvailable(g: Game, m: int)
    requires Consistent(g) && m in AvailableMoves(g.currentBoard)
    ensures Child(g, false, m).0 in AvailableMoves(g.currentBoard)
    decreases |AvailableMoves(g.currentBoard)|, 0
  {
    var c := Play(g, m);
    PlayKeepsConsistent(g, m);
    assert Child(g, false, m) == Minimax(c, true);
    if Outcome(c).1 {
      MinimaxAtTerminal(c, true);
      assert c.allMoves[|c.allMoves| - 1] == m;
    } else {
      MinimaxMoveAvailable(c, true);
    }
  }

  /** A child search reaches the best score a move can have, ten minus the
      moves made after it, exactly when that move wins at once for player two. */
  lemma ImmediateWin(g: Game, maximize: bool, m: int)
    requires Consistent(g) && !Outcome(g).1 && m in AvailableMoves(g.currentBoard)
    ensures Child(g, maximize, m).1 == 10 - (|g.allMoves| + 1) <==> Outcome(Play(g, m)).0 == PlayerTwo
  {
    var c := Play(g, m);
    PlayKeepsConsistent(g, m);
    if Outcome(c).1 {
      MinimaxAtTerminal(c, !maximize);
    } else {
      OutcomeMeaning(c);
      assert Outcome(c).0 == NoWinner;
      var avail := AvailableMoves(c.currentBoard);
      MinimaxChoice(c, !maximize);
      var k :| 0 <= k < |avail| && Minimax(c, !maximize).1 == Child(c, !maximize, avail[k]).1;
    }
  }

  /** When some move wins at once for player two, the maximizing search
      scores ten minus the moves made after it, the best any move can score. */
  lemma WinScoreReached(g: Game, m: int)
    requires Consistent(g) && !Outcome(g).1
    requires m in AvailableMoves(g.currentBoard) && Outcome(Play(g, m)).0 == PlayerTwo
    ensures Minimax(g, true).1 == 10 - (|g.allMoves| + 1)
  {
    var avail := AvailableMoves(g.currentBoard);
    var r := Minimax(g, true);
    MinimaxChoice(g, true);
    var k :| 0 <= k < |avail|
      && r.1 == Child(g, true, avail[k]).1
      && (forall j :: 0 <= j < |avail| ==> Child(g, true, avail[j]).1 <= r.1);
    var i :| 0 <= i < |avail| && avail[i] == m;
    ImmediateWin(g, true, m);
    assert Child(g, true, avail[i]).1 <= r.1;
  }

  /** When a move wins at once for player two, the maximizing search takes
      the first such move in ascending order, with score ten minus the moves
      made after it. */
  lemma QuickestWinTaken(g: Game, m: int)
    requires Consistent(g) && !Outcome(g).1
    requires m in AvailableMoves(g.currentBoard) && Outcome(Play(g, m)).0 == PlayerTwo
    requires forall p :: p in AvailableMoves(g.currentBoard) && p < m ==> Outcome(Play(g, p)).0 != PlayerTwo
    ensures Minimax(g, true) == (m, 10 - (|g.allMoves| + 1))
  {
    var avail := AvailableMoves(g.currentBoard);
    var r := Minimax(g, true);
    WinScoreReached(g, m);
    MinimaxChoice(g, true);
    var k :| 0 <= k < |avail|
      && r.1 == Child(g, true, avail[k]).1
      && r.0 == avail[k]
      && (forall j :: 0 <= j < k ==> Child(g, true, avail[j]).1 != r.1);
    ImmediateWin(g, true, avail[k]);
    forall j | 0 <= j < k
      ensures Outcome(Play(g, avail[j])).0 != PlayerTwo
    {
      ImmediateWin(g, true, avail[j]);
    }
    FirstWinAt(g, m, k);
  }

  /** Among the available moves in ascending order, the first one that wins
      at once for player two is the smallest such move. */
  lemma FirstWinAt(g: Game, m: int, k: int)
    requires m in AvailableMoves(g.currentBoard) && Outcome(Play(g, m)).0 == PlayerTwo
    requires forall p :: p in AvailableMoves(g.currentBoard) && p < m ==> Outcome(Play(g, p)).0 != PlayerTwo
    requires 0 <= k < |AvailableMoves(g.currentBoard)|
    requires Outcome(Play(g, AvailableMoves(g.currentBoard)[k])).0 == PlayerTwo
    requires forall j :: 0 <= j < k ==> Outcome(Play(g, AvailableMoves(g.currentBoard)[j])).0 != PlayerTwo
    ensures AvailableMoves(g.currentBoard)[k] == m
  {
    var avail := AvailableMoves(g.currentBoard);
    var i :| 0 <= i < |avail| && avail[i] == m;
    AvailableMovesAscending(g.currentBoard);
    if i < k {
      assert false;
    } else if k < i {
      assert false;
    }
  }

  /** The position after x at 0, o at 3, x at 1, o at 4 and x at 6, with o
      (the computer) to move: o can complete the middle row at 5 or block
      the top row at 2. */
  const MiddleRowGame: Game :=
    Game([MarkOne, MarkOne, Empty, MarkTwo, MarkTwo, Empty, MarkOne, Empty, Empty],
         [0, 1, 6], [3, 4], [0, 3, 1, 4, 6], PlayerTwo)

  lemma MiddleRowGameConsistent()
    ensures Consistent(MiddleRowGame)
  {
    MiddleRowBoardAvailable(MiddleRowGame.currentBoard);
  }

  /** The empty cells of MiddleRowGame's board, in ascending order. */
  lemma MiddleRowBoardAvailable(b: seq<char>)
    requires b == [MarkOne, MarkOne, Empty, MarkTwo, MarkTwo, Empty, MarkOne, Empty, Empty]
    ensures AvailableMoves(b) == [2, 5, 7, 8]
  {
    MiddleRowBoardTail(b);
    // one unfolding of AvailableFrom per cell, each proved on its own
    assert AvailableFrom(b, 0) == [2, 5, 7, 8] by {
    assert AvailableFrom(b, 1) == [2, 5, 7, 8] by {
    assert AvailableFrom(b, 2) == [2, 5, 7, 8] by {
    assert AvailableFrom(b, 3) == [5, 7, 8] by {
    assert AvailableFrom(b, 4) == [5, 7, 8];
    }}}}
  }

  /** The empty cells of MiddleRowGame's board from cell 4 on. */
  lemma MiddleRowBoardTail(b: seq<char>)
    requires b == [MarkOne, MarkOne, Empty, MarkTwo, MarkTwo, Empty, MarkOne, Empty, Empty]
    ensures AvailableFrom(b, 4) == [5, 7, 8]
  {
    assert AvailableFrom(b, 4) == [5, 7, 8] by {
    assert AvailableFrom(b, 5) == [5, 7, 8] by {
    assert AvailableFrom(b, 6) == [7, 8] by {
    assert AvailableFrom(b, 7) == [7, 8] by {
    assert AvailableFrom(b, 8) == [8] by {
    assert AvailableFrom(b, 9) == [];
    }}}}}
  }

  /** No line is held yet in MiddleRowGame. */
  lemma MiddleRowGameOpen()
    ensures Outcome(MiddleRowGame) == (NoWinner, false)
  {
    var g := MiddleRowGame;
    forall c | 0 <= c < |WinningCombos|
      ensures !LineTaken(g, c)
    {
      assert WinningCombos[c][0] !in g.playerTwoMoves || WinningCombos[c][1] !in g.playerTwoMoves
          || WinningCombos[c][2] !in g.playerTwoMoves;
      assert WinningCombos[c][0] !in g.playerOneMoves || WinningCombos[c][1] !in g.playerOneMoves
          || WinningCombos[c][2] !in g.playerOneMoves;
    }
    OutcomeMeaning(g);
  }

  /** o at 5 completes the middle row. */
  lemma MiddleRowGameWinAtFive()
    ensures Outcome(Play(MiddleRowGame, 5)).0 == PlayerTwo
  {
    var g := Play(MiddleRowGame, 5);
    assert g.playerOneMoves == [0, 1, 6] && g.playerTwoMoves == [3, 4, 5];
    assert LineTaken(g, 1);
    forall c | 0 <= c < |WinningCombos|
      ensures !Covers(g.playerOneMoves, WinningCombos[c])
    {
      assert WinningCombos[c][0] !in g.playerOneMoves || WinningCombos[c][1] !in g.playerOneMoves
          || WinningCombos[c][2] !in g.playerOneMoves;
    }
    OutcomeMeaning(g);
  }

  /** o at 2 wins nothing at once. */
  lemma MiddleRowGameNoWinAtTwo()
    ensures Outcome(Play(MiddleRowGame, 2)).0 == NoWinner
  {
    var g := Play(MiddleRowGame, 2);
    assert g.playerOneMoves == [0, 1, 6] && g.playerTwoMoves == [3, 4, 2];
    forall c | 0 <= c < |WinningCombos|
      ensures !LineTaken(g, c)
    {
      assert WinningCombos[c][0] !in g.playerTwoMoves || WinningCombos[c][1] !in g.playerTwoMoves
          || WinningCombos[c][2] !in g.playerTwoMoves;
      assert WinningCombos[c][0] !in g.playerOneMoves || WinningCombos[c][1] !in g.playerOneMoves
          || WinningCombos[c][2] !in g.playerOneMoves;
    }
    OutcomeMeaning(g);
  }

  /** In MiddleRowGame the computer completes the middle row at 5 rather than
      blocking at 2, with score 10 - 6. */
  lemma CompletesMiddleRow()
    ensures Consistent(MiddleRowGame) && Minimax(MiddleRowGame, true) == (5, 4)
  {
    MiddleRowGameConsistent();
    MiddleRowGameOpen();
    MiddleRowGameWinAtFive();
    MiddleRowGameNoWinAtTwo();
    QuickestWinTaken(MiddleRowGame, 5);
  }
}
