/**
 The game flow of js/script.js (`game`): two players, the click rule with its
 turn counter, the outcome evaluated after every click, and the end-of-game
 mapping from the winning mark to a player number.

 A square's text is always the board cell at the same position (the click
 handler writes both together and `startGame` clears both), so the model keeps
 only the board. Attached click listeners are the `listening` flag.
 */
module Game {
  import opened Wrappers
  import opened GameBoard

  datatype Mark = X | O

  datatype Player = Player(number: int, mark: Mark)

  const Player1: Player := Player(1, X)
  const Player2: Player := Player(2, O)

  type Board = map<int, Mark>

  /** What the caller learns after a click. */
  datatype Outcome = InProgress | Win(mark: Mark, line: seq<int>) | Tie

  /** The board, `_clickCounter`, and whether the squares' click listeners are attached. */
  datatype Game = Game(board: Board, clicks: nat, listening: bool)

  /** The mark a counter value selects: odd is player 1's, even is player 2's. */
  function TurnMark(counter: nat): (m: Mark) {
    if counter % 2 == 1 then Player1.mark else Player2.mark
  }

  /** Number of squares holding mark `m`. */
  function Count(b: Board, m: Mark): (n: nat) {
    |set k | k in b && b[k] == m|
  }

  /**
   The marking step of `_playerClick`: the counter advances only on an empty
   square, and the branches on the square's current text never change a
   marked square.
   */
  function Place(b: Board, clicks: nat, pos: Position): (r: (Board, nat))
    ensures pos in b ==> r.0 == b && r.1 == clicks
    ensures pos !in b ==> r.1 == clicks + 1
    ensures pos !in b ==> Get(r.0, pos) == Some(TurnMark(r.1))
    ensures forall j :: j != pos ==> Get(r.0, j) == Get(b, j)
  {
    // the square's text, with None for ""
    var content := Get(b, pos);
    var counter := if content == None then clicks + 1 else clicks;
    if counter % 2 == 1 && content != Some(Player2.mark) then
      var marked := SetContents(b, pos, Player1.mark);
      assert content != None ==> marked == b by {
        if content != None {
          assert content.value.X?;
          RewriteIsNoOp(b, pos, Player1.mark);
        }
      }
      (marked, counter)
    else if content != Some(Player1.mark) then
      var marked := SetContents(b, pos, Player2.mark);
      assert content != None ==> marked == b by {
        if content != None {
          assert content.value.O?;
          RewriteIsNoOp(b, pos, Player2.mark);
        }
      }
      (marked, counter)
    else
      (b, counter)
  }

  /**
   The check run after every click: a triplet is a win for the mark on its
   first square; otherwise nine filled squares are a tie. When several lines
   are complete, the win carries the first of them in the detector's order.
   */
  function Evaluate(b: Board): (o: Outcome)
    ensures o.Win? ==> o.line in Lines && Complete(b, o.line) && o.mark == b[o.line[0]]
    ensures o.Win? <==> exists i :: 0 <= i < |Lines| && Complete(b, Lines[i])
    ensures o.Win? ==> FirstComplete(b, 0).Some? && o.line == Lines[FirstComplete(b, 0).value]
    ensures WellFormed(b) ==>
              (o.Tie? <==> Full(b) && forall i :: 0 <= i < |Lines| ==> !Complete(b, Lines[i]))
  {
    IsTripletIsFirstComplete(b);
    match IsTriplet(b)
    case Some(line) => Win(b[line[0]], line)
    case None => if Length(b) == Size then Tie else InProgress
  }

  /** `endGame(mark)`: `null` is a tie, player 1's mark names player 1, any other mark player 2. */
  function EndGame(mark: Option<Mark>): (winner: Option<int>)
    ensures winner == None <==> mark == None
    ensures mark == Some(Player1.mark) ==> winner == Some(Player1.number)
    ensures mark == Some(Player2.mark) ==> winner == Some(Player2.number)
  {
    if mark == None then None
    else if mark == Some(Player1.mark) then Some(Player1.number)
    else Some(Player2.number)
  }

  /**
   The player number announced for a finished outcome: `_playerClick` passes
   `endGame` the mark on the winning line's first square, or `null` for a tie.
   */
  function Announce(o: Outcome): (winner: Option<int>)
    requires !o.InProgress?
    ensures o.Tie? ==> winner == None
    ensures o.Win? && o.mark == Player1.mark ==> winner == Some(Player1.number)
    ensures o.Win? && o.mark == Player2.mark ==> winner == Some(Player2.number)
  {
    EndGame(if o.Win? then Some(o.mark) else None)
  }

  /** `startGame()`: empty board, counter zero, listeners attached. */
  function StartGame(): (g: Game)
    ensures Length(g.board) == 0 && g.clicks == 0 && g.listening
    ensures Consistent(g)
  {
    var g := Game(ClearContents(), 0, true);
    CountBound(g.board, X);
    CountBound(g.board, O);
    g
  }

  /**
   `_playerClick` on square `pos`: ignored once the game has ended; otherwise
   mark the square by the turn rule, then end the game on a win or a tie.
   */
  function Click(g: Game, pos: Position): (r: Game)
    ensures !g.listening ==> r == g
    ensures g.listening && pos in g.board ==> r.board == g.board && r.clicks == g.clicks
    ensures g.listening && pos !in g.board ==>
              r.clicks == g.clicks + 1 && r.board == g.board[pos := TurnMark(r.clicks)]
    ensures g.listening ==> (r.listening <==> Evaluate(r.board).InProgress?)
  {
    if !g.listening then g
    else
      var (b, n) := Place(g.board, g.clicks, pos);
      Game(b, n, Evaluate(b).InProgress?)
  }

  /** Clicks applied one after another. */
  function Play(g: Game, moves: seq<Position>): (r: Game)
    decreases |moves|
  {
    if |moves| == 0 then g else Play(Click(g, moves[0]), moves[1..])
  }

  /**
   What every reachable state satisfies: only squares are keys, the count of
   filled squares is the click counter, marks alternate starting with player 1,
   and the listeners are attached exactly while no win or tie is on the board.
   */
  predicate Consistent(g: Game) {
    && WellFormed(g.board)
    && Length(g.board) == g.clicks
    && Count(g.board, X) == (g.clicks + 1) / 2
    && Count(g.board, O) == g.clicks / 2
    && (g.listening <==> Evaluate(g.board).InProgress?)
  }

  /** No mark occupies more squares than are filled. */
  lemma CountBound(b: Board, m: Mark)
    ensures Count(b, m) <= |b|
  {
    SubsetCard((set k | k in b && b[k] == m), b.Keys);
  }

  /** Filling an empty square with `m` adds one to `m`'s count and none to the other mark's. */
  lemma CountAfterFill(b: Board, pos: int, m: Mark)
    requires pos !in b
    ensures Count(b[pos := m], m) == Count(b, m) + 1
    ensures forall m' :: m' != m ==> Count(b[pos := m], m') == Count(b, m')
  {
    var b' := b[pos := m];
    assert (set k | k in b' && b'[k] == m) == (set k | k in b && b[k] == m) + {pos};
    forall m' | m' != m
      ensures Count(b', m') == Count(b, m')
    {
      assert (set k | k in b' && b'[k] == m') == (set k | k in b && b[k] == m');
    }
  }

  /** A click keeps a consistent game consistent, so the counter never passes nine. */
  lemma ClickPreservesConsistent(g: Game, pos: Position)
    requires Consistent(g)
    ensures Consistent(Click(g, pos))
    ensures Click(g, pos).clicks <= Size
  {
    var r := Click(g, pos);
    if g.listening && pos !in g.board {
      CountAfterFill(g.board, pos, TurnMark(r.clicks));
    }
  }

  /** Clicking a marked square changes nothing at all. */
  lemma OccupiedClickIsNoOp(g: Game, pos: Position)
    requires Consistent(g) && pos in g.board
    ensures Click(g, pos) == g
  {
  }

  /**
   A click that produces a win was a real move, the winning line runs through
   the square just marked, and the winning mark is the mover's: alternating
   play never shows a line for the player who did not just move.
   */
  lemma WinnerIsMover(g: Game, pos: Position)
    requires Consistent(g) && g.listening
    ensures Evaluate(Click(g, pos).board).Win? ==>
              && pos !in g.board
              && pos in Evaluate(Click(g, pos).board).line
              && Evaluate(Click(g, pos).board).mark == TurnMark(Click(g, pos).clicks)
  {
    var r := Click(g, pos);
    var o := Evaluate(r.board);
    if o.Win? {
      if pos in g.board {
        assert false;
      }
      if pos !in o.line {
        assert false;
      }
    }
  }

  /** When a click wins, `endGame` announces player 1 after an odd counter and player 2 after an even one. */
  lemma AnnouncedWinnerIsMover(g: Game, pos: Position)
    requires Consistent(g) && g.listening
    ensures Evaluate(Click(g, pos).board).Win? ==>
              Announce(Evaluate(Click(g, pos).board)) ==
              Some(if Click(g, pos).clicks % 2 == 1 then Player1.number else Player2.number)
  {
    WinnerIsMover(g, pos);
  }

  /** A run of clicks keeps a consistent game consistent. */
  lemma {:induction false} PlayPreservesConsistent(g: Game, moves: seq<Position>)
    requires Consistent(g)
    ensures Consistent(Play(g, moves))
    decreases |moves|
  {
    if |moves| > 0 {
      ClickPreservesConsistent(g, moves[0]);
      PlayPreservesConsistent(Click(g, moves[0]), moves[1..]);
    }
  }

  /** After `endGame`, no click is processed until the next `startGame`. */
  lemma {:induction false} FinishedIgnoresClicks(g: Game, moves: seq<Position>)
    requires !g.listening
    ensures Play(g, moves) == g
    decreases |moves|
  {
    if |moves| > 0 {
      FinishedIgnoresClicks(Click(g, moves[0]), moves[1..]);
    }
  }

  /** Playing one more move is one more click after the rest. */
  lemma {:induction false} PlayExtend(g: Game, moves: seq<Position>, pos: Position)
    ensures Play(g, moves + [pos]) == Click(Play(g, moves), pos)
    decreases |moves|
  {
    if |moves| == 0 {
      assert moves + [pos] == [pos];
    } else {
      assert (moves + [pos])[1..] == moves[1..] + [pos];
      PlayExtend(Click(g, moves[0]), moves[1..], pos);
    }
  }

  /** No square is played twice. */
  predicate Distinct(moves: seq<Position>) {
    forall i, j :: 0 <= i < j < |moves| ==> moves[i] != moves[j]
  }

  /** The board that alternate play of `moves` from an empty board produces:
      the i-th move (from 0) carries the mark of counter value i + 1. */
  function Built(moves: seq<Position>): (b: Board)
    decreases |moves|
  {
    if |moves| == 0 then map[]
    else SetContents(Built(moves[..|moves| - 1]), moves[|moves| - 1], TurnMark(|moves|))
  }

  /** The squares filled by a run of moves are exactly the squares played. */
  lemma {:induction false} BuiltKeys(moves: seq<Position>)
    ensures forall k :: k in Built(moves) <==> k in moves
    decreases |moves|
  {
    if |moves| > 0 {
      var init := moves[..|moves| - 1];
      BuiltKeys(init);
      assert moves == init + [moves[|moves| - 1]];
    }
  }

  /** A square no move played is empty. */
  lemma BuiltAbsent(moves: seq<Position>, k: int)
    requires k !in moves
    ensures Get(Built(moves), k) == None
  {
    BuiltKeys(moves);
  }

  /** With no square played twice, the i-th move's square holds the mark of counter value i + 1. */
  lemma {:induction false} BuiltGet(moves: seq<Position>, i: int)
    requires Distinct(moves) && 0 <= i < |moves|
    ensures Get(Built(moves), moves[i]) == Some(TurnMark(i + 1))
    decreases |moves|
  {
    if i < |moves| - 1 {
      var init := moves[..|moves| - 1];
      assert init[i] == moves[i];
      BuiltGet(init, i);
    }
  }

  /** With no square played twice, the fill count is the number of moves. */
  lemma {:induction false} BuiltLength(moves: seq<Position>)
    requires Distinct(moves)
    ensures Length(Built(moves)) == |moves|
    decreases |moves|
  {
    if |moves| > 0 {
      var init := moves[..|moves| - 1];
      BuiltLength(init);
      BuiltKeys(init);
      assert moves[|moves| - 1] !in init;
    }
  }

  /** Each earlier board of a run is a sub-board of the final one. */
  lemma BuiltPrefix(moves: seq<Position>, n: nat)
    requires Distinct(moves) && n <= |moves|
    ensures SubBoard(Built(moves[..n]), Built(moves))
  {
    var pre := moves[..n];
    BuiltKeys(pre);
    forall k | k in Built(pre)
      ensures k in Built(moves) && Built(moves)[k] == Built(pre)[k]
    {
      var i :| 0 <= i < |pre| && pre[i] == k;
      BuiltGet(pre, i);
      BuiltGet(moves, i);
    }
  }

  /** A click on a fresh square of a built, still-open board gives the board built one move further. */
  lemma ClickExtendsBuilt(g: Game, init: seq<Position>, last: Position)
    requires g == Game(Built(init), |init|, true)
    requires last !in init
    ensures Click(g, last) ==
            Game(Built(init + [last]), |init| + 1, Evaluate(Built(init + [last])).InProgress?)
  {
    BuiltKeys(init);
    assert (init + [last])[..|init|] == init;
  }

  /** The prefixes of a run's prefix are the run's own prefixes. */
  lemma InProgressPrefixes(moves: seq<Position>, k: nat)
    requires k <= |moves|
    requires forall n :: 0 < n < |moves| ==> Evaluate(Built(moves[..n])).InProgress?
    ensures forall n :: 0 < n < k ==> Evaluate(Built(moves[..k][..n])).InProgress?
  {
    forall n | 0 < n < k
      ensures Evaluate(Built(moves[..k][..n])).InProgress?
    {
      assert moves[..k][..n] == moves[..n];
    }
  }

  /** Before the last move of such a run, the game is still open. */
  lemma InitStillOpen(moves: seq<Position>)
    requires |moves| > 0
    requires forall n :: 0 < n < |moves| ==> Evaluate(Built(moves[..n])).InProgress?
    ensures Evaluate(Built(moves[..|moves| - 1])).InProgress?
  {
    if |moves| == 1 {
      assert Built(moves[..0]) == map[];
      assert IsTriplet(Built(moves[..0])) == None;
    }
  }

  /** One more click on a fresh square extends a replayed, still-open run. */
  lemma ReplayStep(init: seq<Position>, last: Position)
    requires Play(StartGame(), init) == Game(Built(init), |init|, Evaluate(Built(init)).InProgress?)
    requires Evaluate(Built(init)).InProgress?
    requires last !in init
    ensures Play(StartGame(), init + [last]) ==
            Game(Built(init + [last]), |init| + 1, Evaluate(Built(init + [last])).InProgress?)
  {
    ClickExtendsBuilt(Play(StartGame(), init), init, last);
    PlayExtend(StartGame(), init, last);
  }

  /**
   Replaying distinct moves from `startGame` while nobody has won and the
   board is not full: every click lands on an empty square, so the state is
   the built board, the counter is the number of moves, and the listeners
   stay attached exactly while the built board is still in progress.
   */
  lemma {:induction false} Replay(moves: seq<Position>)
    requires Distinct(moves)
    requires forall n :: 0 < n < |moves| ==> Evaluate(Built(moves[..n])).InProgress?
    ensures Play(StartGame(), moves) == Game(Built(moves), |moves|, Evaluate(Built(moves)).InProgress?)
    decreases |moves|
  {
    if |moves| > 0 {
      var init := moves[..|moves| - 1];
      var last := moves[|moves| - 1];
      assert moves == init + [last];
      InProgressPrefixes(moves, |moves| - 1);
      Replay(init);
      InitStillOpen(moves);
      ReplayStep(init, last);
    }
  }
}
