/**
 Concrete games and boards: the classic drawn game, early wins for each
 player, and the detector's priority when several lines are complete at once.
 */
module Scenarios {
  import opened Wrappers
  import opened GameBoard
  import opened Game

  /** If the board before the last move has no triplet, no earlier board of the run is finished. */
  lemma PrefixesInProgress(moves: seq<Position>)
    requires Distinct(moves) && 0 < |moves| <= Size
    requires IsTriplet(Built(moves[..|moves| - 1])) == None
    ensures forall n :: 0 <= n < |moves| ==> Evaluate(Built(moves[..n])).InProgress?
  {
    var init := moves[..|moves| - 1];
    forall n | 0 <= n < |moves|
      ensures Evaluate(Built(moves[..n])).InProgress?
    {
      assert moves[..n] == init[..n];
      BuiltPrefix(init, n);
      NoTripletInSubBoard(Built(init[..n]), Built(init));
      assert Distinct(moves[..n]);
      BuiltLength(moves[..n]);
    }
  }

  /** The state after the first `n` moves of a run whose earlier boards are all in progress. */
  lemma ReplayPrefix(moves: seq<Position>, n: nat)
    requires Distinct(moves) && n <= |moves|
    requires forall m :: 0 <= m < |moves| ==> Evaluate(Built(moves[..m])).InProgress?
    ensures Play(StartGame(), moves[..n]) ==
            Game(Built(moves[..n]), n, Evaluate(Built(moves[..n])).InProgress?)
  {
    var pre := moves[..n];
    forall m | 0 < m < n
      ensures Evaluate(Built(pre[..m])).InProgress?
    {
      assert pre[..m] == moves[..m];
    }
    assert Distinct(pre);
    Replay(pre);
  }

  /**
   Playing distinct moves from `startGame` when the board before the last
   move has no triplet: every earlier state is still listening and shows the
   board built from the moves so far.
   */
  lemma PlayOutPrefixes(moves: seq<Position>)
    requires Distinct(moves) && 0 < |moves| <= Size
    requires IsTriplet(Built(moves[..|moves| - 1])) == None
    ensures forall n :: 0 <= n <= |moves| ==> Play(StartGame(), moves[..n]).board == Built(moves[..n])
    ensures forall n :: 0 <= n < |moves| ==> Play(StartGame(), moves[..n]).listening
  {
    PrefixesInProgress(moves);
    forall n | 0 <= n <= |moves|
      ensures Play(StartGame(), moves[..n]).board == Built(moves[..n])
      ensures n < |moves| ==> Play(StartGame(), moves[..n]).listening
    {
      ReplayPrefix(moves, n);
    }
  }

  /** The same run ends on the built board with the counter at the number of
      moves, and is over exactly when the built board is a win or a tie. */
  lemma PlayOutFinal(moves: seq<Position>)
    requires Distinct(moves) && 0 < |moves| <= Size
    requires IsTriplet(Built(moves[..|moves| - 1])) == None
    ensures Play(StartGame(), moves) ==
            Game(Built(moves), |moves|, Evaluate(Built(moves)).InProgress?)
  {
    PrefixesInProgress(moves);
    ReplayPrefix(moves, |moves|);
    assert moves[..|moves|] == moves;
  }

  /** x:0, o:1, x:2, o:4, x:3, o:5, x:7, o:6, x:8 */
  const DrawMoves: seq<Position> := [0, 1, 2, 4, 3, 5, 7, 6, 8]

  /** A run with no triplet at its end had none after its first `n` moves. */
  lemma NoTripletAtPrefix(moves: seq<Position>, n: nat)
    requires Distinct(moves) && IsTriplet(Built(moves)) == None && n <= |moves|
    ensures IsTriplet(Built(moves[..n])) == None
  {
    BuiltPrefix(moves, n);
    NoTripletInSubBoard(Built(moves[..n]), Built(moves));
  }

  /** A run with no triplet at its end had none at any earlier point. */
  lemma NoTripletBefore(moves: seq<Position>)
    requires Distinct(moves) && IsTriplet(Built(moves)) == None
    ensures forall n :: 0 <= n <= |moves| ==> IsTriplet(Built(moves[..n])) == None
  {
    forall n | 0 <= n <= |moves|
      ensures IsTriplet(Built(moves[..n])) == None
    {
      NoTripletAtPrefix(moves, n);
    }
  }

  /** The final board of the classic draw: x on 0, 2, 3, 7, 8 and o on 1, 4, 5, 6, with no line. */
  lemma DrawBoardNoTriplet()
    ensures IsTriplet(Built(DrawMoves)) == None
  {
    var d := DrawMoves;
    assert Distinct(d);
    BuiltGet(d, 0); BuiltGet(d, 1); BuiltGet(d, 2);
    BuiltGet(d, 3); BuiltGet(d, 4); BuiltGet(d, 5);
    BuiltGet(d, 6); BuiltGet(d, 7); BuiltGet(d, 8);
  }

  /** The classic draw plays nine distinct squares and leaves no line. */
  lemma DrawBoard()
    ensures Distinct(DrawMoves)
    ensures IsTriplet(Built(DrawMoves)) == None
    ensures Length(Built(DrawMoves)) == Size
  {
    assert Distinct(DrawMoves);
    DrawBoardNoTriplet();
    BuiltLength(DrawMoves);
  }

  /** No state of the classic draw shows a triplet. */
  lemma DrawNeverShowsTriplet()
    ensures forall n :: 0 <= n <= |DrawMoves| ==> IsTriplet(Play(StartGame(), DrawMoves[..n]).board) == None
  {
    DrawBoard();
    NoTripletBefore(DrawMoves);
    PlayOutPrefixes(DrawMoves);
  }

  /** The classic draw keeps the listeners attached until the ninth click. */
  lemma DrawStaysOpen()
    ensures forall n :: 0 <= n < |DrawMoves| ==> Play(StartGame(), DrawMoves[..n]).listening
  {
    DrawBoard();
    NoTripletAtPrefix(DrawMoves, 8);
    PlayOutPrefixes(DrawMoves);
  }

  /** The ninth click of the classic draw ends the game in a tie, announced with no player. */
  lemma DrawEndsInTie()
    ensures Evaluate(Play(StartGame(), DrawMoves).board) == Tie
    ensures !Play(StartGame(), DrawMoves).listening
    ensures Announce(Evaluate(Play(StartGame(), DrawMoves).board)) == None
  {
    DrawBoard();
    NoTripletAtPrefix(DrawMoves, 8);
    PlayOutFinal(DrawMoves);
  }

  /** x:0, o:3, x:1, o:4, x:2: player 1 completes the top row on the fifth click. */
  const RowMoves: seq<Position> := [0, 3, 1, 4, 2]

  lemma RowBoardBefore()
    ensures IsTriplet(Built(RowMoves[..4])) == None
  {
    var pre := RowMoves[..4];
    assert pre == [0, 3, 1, 4];
    BuiltGet(pre, 0); BuiltGet(pre, 1); BuiltGet(pre, 2); BuiltGet(pre, 3);
    BuiltAbsent(pre, 2); BuiltAbsent(pre, 5); BuiltAbsent(pre, 6);
  }

  lemma RowBoards()
    ensures Distinct(RowMoves)
    ensures IsTriplet(Built(RowMoves[..4])) == None
    ensures IsTriplet(Built(RowMoves)) == Some([0, 1, 2])
  {
    RowBoardBefore();
    BuiltGet(RowMoves, 0); BuiltGet(RowMoves, 2); BuiltGet(RowMoves, 4);
  }

  /** The top row wins for player 1 and ends the game after five clicks. */
  lemma RowWinForPlayer1()
    ensures Evaluate(Play(StartGame(), RowMoves).board) == Win(X, [0, 1, 2])
    ensures Announce(Evaluate(Play(StartGame(), RowMoves).board)) == Some(1)
    ensures !Play(StartGame(), RowMoves).listening
    ensures Play(StartGame(), RowMoves).clicks == 5
  {
    RowBoards();
    PlayOutFinal(RowMoves);
  }

  /** x:0, o:1, x:4, o:2, x:8: the main diagonal is found as soon as square 8 is set. */
  const DiagonalMoves: seq<Position> := [0, 1, 4, 2, 8]

  lemma DiagonalBoardBefore()
    ensures IsTriplet(Built(DiagonalMoves[..4])) == None
  {
    var pre := DiagonalMoves[..4];
    assert pre == [0, 1, 4, 2];
    BuiltGet(pre, 0); BuiltGet(pre, 1); BuiltGet(pre, 2); BuiltGet(pre, 3);
    BuiltAbsent(pre, 3); BuiltAbsent(pre, 5); BuiltAbsent(pre, 6); BuiltAbsent(pre, 8);
  }

  lemma DiagonalBoardAfter()
    ensures IsTriplet(Built(DiagonalMoves)) == Some([0, 4, 8])
  {
    var m := DiagonalMoves;
    BuiltGet(m, 0); BuiltGet(m, 1); BuiltGet(m, 2); BuiltGet(m, 3); BuiltGet(m, 4);
    BuiltAbsent(m, 3); BuiltAbsent(m, 5); BuiltAbsent(m, 6);
  }

  lemma DiagonalBoards()
    ensures Distinct(DiagonalMoves)
    ensures IsTriplet(Built(DiagonalMoves[..4])) == None
    ensures IsTriplet(Built(DiagonalMoves)) == Some([0, 4, 8])
  {
    DiagonalBoardBefore();
    DiagonalBoardAfter();
  }

  /** The diagonal wins for player 1 with only five squares filled. */
  lemma DiagonalWinBeforeFull()
    ensures Evaluate(Play(StartGame(), DiagonalMoves).board) == Win(X, [0, 4, 8])
    ensures Length(Play(StartGame(), DiagonalMoves).board) == 5
    ensures !Play(StartGame(), DiagonalMoves).listening
  {
    DiagonalBoards();
    PlayOutFinal(DiagonalMoves);
    BuiltLength(DiagonalMoves);
  }

  /** x:0, o:4, x:1, o:3, x:8, o:5: player 2 completes the middle row on the sixth click. */
  const MiddleRowMoves: seq<Position> := [0, 4, 1, 3, 8, 5]

  lemma MiddleRowBoardBefore()
    ensures IsTriplet(Built(MiddleRowMoves[..5])) == None
  {
    var pre := MiddleRowMoves[..5];
    assert pre == [0, 4, 1, 3, 8];
    BuiltGet(pre, 0); BuiltGet(pre, 1); BuiltGet(pre, 2); BuiltGet(pre, 3); BuiltGet(pre, 4);
    BuiltAbsent(pre, 2); BuiltAbsent(pre, 5); BuiltAbsent(pre, 6);
  }

  lemma MiddleRowBoardAfter()
    ensures IsTriplet(Built(MiddleRowMoves)) == Some([3, 4, 5])
  {
    var m := MiddleRowMoves;
    BuiltGet(m, 0); BuiltGet(m, 1); BuiltGet(m, 2); BuiltGet(m, 3); BuiltGet(m, 4); BuiltGet(m, 5);
    BuiltAbsent(m, 2);
  }

  lemma MiddleRowBoards()
    ensures Distinct(MiddleRowMoves)
    ensures IsTriplet(Built(MiddleRowMoves[..5])) == None
    ensures IsTriplet(Built(MiddleRowMoves)) == Some([3, 4, 5])
  {
    MiddleRowBoardBefore();
    MiddleRowBoardAfter();
  }

  /** The middle row wins for player 2. */
  lemma MiddleRowWinForPlayer2()
    ensures Evaluate(Play(StartGame(), MiddleRowMoves).board) == Win(O, [3, 4, 5])
    ensures Announce(Evaluate(Play(StartGame(), MiddleRowMoves).board)) == Some(2)
    ensures !Play(StartGame(), MiddleRowMoves).listening
  {
    MiddleRowBoards();
    PlayOutFinal(MiddleRowMoves);
  }

  /** x:1, o:3, x:2, o:5, x:4, o:6, x:8, o:7, x:0: player 1's last move completes
      the top row and the main diagonal at once. */
  const TwoLineMoves: seq<Position> := [1, 3, 2, 5, 4, 6, 8, 7, 0]

  lemma TwoLineBoardBefore()
    ensures IsTriplet(Built(TwoLineMoves[..8])) == None
  {
    var pre := TwoLineMoves[..8];
    assert pre == [1, 3, 2, 5, 4, 6, 8, 7];
    assert Distinct(pre);
    BuiltGet(pre, 0); BuiltGet(pre, 1); BuiltGet(pre, 2); BuiltGet(pre, 3);
    BuiltGet(pre, 4); BuiltGet(pre, 5); BuiltGet(pre, 6); BuiltGet(pre, 7);
    BuiltAbsent(pre, 0);
  }

  lemma TwoLineDistinct()
    ensures Distinct(TwoLineMoves)
  {
  }

  lemma TwoLineBoardAfter()
    ensures Distinct(TwoLineMoves)
    ensures IsTriplet(Built(TwoLineMoves)) == Some([0, 1, 2])
    ensures Complete(Built(TwoLineMoves), [0, 4, 8])
  {
    var m := TwoLineMoves;
    TwoLineDistinct();
    BuiltGet(m, 0); BuiltGet(m, 2); BuiltGet(m, 4); BuiltGet(m, 6); BuiltGet(m, 8);
  }

  /** With the top row and the main diagonal completed by one click, the game
      reports the top row, the first in the detector's order. */
  lemma TwoLinesReportTopRow()
    ensures Evaluate(Play(StartGame(), TwoLineMoves).board) == Win(X, [0, 1, 2])
    ensures Complete(Play(StartGame(), TwoLineMoves).board, [0, 4, 8])
    ensures !Play(StartGame(), TwoLineMoves).listening
  {
    TwoLineBoardBefore();
    TwoLineBoardAfter();
    PlayOutFinal(TwoLineMoves);
  }

  /** Boards written straight through the store, outside alternating play. */
  const ColumnAndDiagonal: Board := map[0 := X, 3 := X, 6 := X, 4 := X, 8 := X]
  const AllX: Board := map[0 := X, 1 := X, 2 := X, 3 := X, 4 := X, 5 := X, 6 := X, 7 := X, 8 := X]

  /** With the left column and the main diagonal both complete, the column is reported;
      with every line complete, the top row is. */
  lemma DetectorPriority()
    ensures Complete(ColumnAndDiagonal, [0, 4, 8])
    ensures IsTriplet(ColumnAndDiagonal) == Some([0, 3, 6])
    ensures IsTriplet(AllX) == Some([0, 1, 2])
  {
  }

  /** Two marks on a line and an empty third square are not a triplet. */
  lemma EmptySquareBlocksLine()
    ensures IsTriplet(map[0 := X, 1 := X]) == None
    ensures IsTriplet(map[0 := O, 4 := O, 3 := X]) == None
  {
  }
}
