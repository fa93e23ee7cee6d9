/**
 * The server's side of a game (ttt/server.cpp): getMove, which sends the
 * board to a peer and reads its move back, and the turn loop of playGame.
 *
 * A peer is seen only through what it answers. The answers a game gets are
 * a finite sequence of PeerReply values, one per request, in the order the
 * server asks for them; the mode only decides which peer's name (Human1,
 * Human2, Bot1, Bot2) stands for X and which for O. A failed write or read
 * is the reply Lost.
 *
 * Step is one pass of the loop body, Run the loop over a sequence of
 * replies, and PlayGame the loop itself over a TicTacToeBoard object,
 * proved to end exactly where Run does.
 */
module Server {
  import opened Board
  import opened Wire

  datatype Option<T> = None | Some(value: T)

  /** The three pairings wmain offers: 1, 2 and 3. */
  datatype Mode = HumanVsHuman | HumanVsBot | BotVsBot

  /** wmain's check of the mode number typed at the console. */
  function ModeOf(choice: int): (m: Option<Mode>)
    ensures m.Some? <==> 1 <= choice <= 3
    ensures m == Some(HumanVsHuman) <==> choice == 1
    ensures m == Some(BotVsBot) <==> choice == 3
  {
    if choice == 1 then Some(HumanVsHuman)
    else if choice == 2 then Some(HumanVsBot)
    else if choice == 3 then Some(BotVsBot)
    else None
  }

  /** The peer processes playGame launches, named as in its messages. */
  datatype Peer = Human1 | Human2 | Bot1 | Bot2

  /** The peer asked for a move when player is to move (X first, then O). */
  function PeerOf(mode: Mode, player: char): (p: Peer)
    ensures IsBot(p) <==> mode == BotVsBot || (mode == HumanVsBot && player != 'X')
    ensures player == 'X' ==> p == Human1 || p == Bot1
    ensures p == Bot2 ==> mode == BotVsBot && player != 'X'
  {
    match mode
    case HumanVsHuman => if player == 'X' then Human1 else Human2
    case HumanVsBot => if player == 'X' then Human1 else Bot1
    case BotVsBot => if player == 'X' then Bot1 else Bot2
  }

  predicate IsBot(p: Peer) {
    p == Bot1 || p == Bot2
  }

  lemma RosterDistinct(mode: Mode)
    ensures PeerOf(mode, 'X') != PeerOf(mode, 'O')
  {
  }

  /** What one request to a peer produces: a failed write or read, or the text read back. */
  datatype PeerReply = Lost | Received(text: seq<char>)

  /** The value getMove returns: -1 on failure or an empty read, else the leading integer. */
  function ReceivedMove(reply: PeerReply): (m: int)
    ensures m == -1 <==> reply.Lost? || reply.text == [] || ParseInt(reply.text) == -1
    ensures reply.Received? && reply.text != [] ==> m == ParseInt(reply.text)
  {
    match reply
    case Lost => -1
    case Received(text) => if text == [] then -1 else ParseInt(text)
  }

  /** getMove: builds the board message cell by cell and turns the peer's reply into a move. */
  method GetMove(board: TicTacToeBoard, reply: PeerReply) returns (pos: int, sent: seq<char>)
    requires board.Valid()
    ensures sent == BoardMessage(board.cells[..])
    ensures pos == ReceivedMove(reply)
  {
    sent := [];
    for i := 0 to 9
      invariant sent == board.cells[..i]
    {
      sent := sent + [board.Get(i)];
    }
    sent := sent + "\n";
    match reply {
      case Lost =>
        pos := -1;
      case Received(text) =>
        pos := if text == [] then -1 else ParseInt(text);
    }
  }

  /** How a game ended: a win, a draw, a peer that failed, or still waiting for a reply. */
  datatype Outcome = Won(mark: char) | Draw | PeerFailed(peer: Peer) | AwaitingReply

  /** The loop's variables: the board, currentPlayer and moveCount. */
  datatype GameState = GameState(cells: seq<char>, player: char, moveCount: int)

  /** The state playGame starts from: an empty board, X to move, no moves made. */
  function Start(): GameState {
    GameState(EmptyCells, 'X', 0)
  }

  function Toggle(player: char): char {
    if player == 'X' then 'O' else 'X'
  }

  /** The result of one pass of the loop: go round again from next, or leave it. */
  datatype StepResult = Continue(next: GameState) | Stop(outcome: Outcome, last: GameState)

  /** The state a pass of the loop leaves behind, whether or not the loop goes round again. */
  function After(r: StepResult): GameState {
    if r.Stop? then r.last else r.next
  }

  /**
   * One pass of the loop body of playGame with the move pos just read. A -1
   * ends the game as a failure of the peer to move; any other move makeMove
   * refuses leaves the state as it was, so the same player is asked again;
   * the loop is left otherwise only when the accepted move wins or fills the
   * board. No placed mark is ever changed and at most one move is counted.
   */
  function Step(mode: Mode, s: GameState, pos: int): (r: StepResult)
    requires |s.cells| == 9
    ensures |After(r).cells| == 9
    ensures pos == -1 ==> r == Stop(PeerFailed(PeerOf(mode, s.player)), s)
    ensures pos != -1 && !Accepts(s.cells, pos) ==> r == Continue(s)
    ensures r.Stop? <==>
              (pos == -1 || (Accepts(s.cells, pos) &&
                             (Winner(s.cells[pos := s.player]) != ' ' || Full(s.cells[pos := s.player]))))
    ensures forall i | 0 <= i < 9 && s.cells[i] != ' ' :: After(r).cells[i] == s.cells[i]
    ensures s.moveCount <= After(r).moveCount <= s.moveCount + 1
  {
    if pos == -1 then Stop(PeerFailed(PeerOf(mode, s.player)), s)
    else if pos < 0 || pos > 8 then Continue(s)
    else if !Accepts(s.cells, pos) then Continue(s)
    else
      var cells := s.cells[pos := s.player];
      var moveCount := s.moveCount + 1;
      var w := Winner(cells);
      if w != ' ' || Full(cells) then
        Stop(if w != ' ' then Won(w) else Draw, GameState(cells, s.player, moveCount))
      else
        Continue(GameState(cells, Toggle(s.player), moveCount))
  }

  /**
   * The loop run from s over the replies; AwaitingReply when they run out
   * first. No mark placed before the run is changed by it, and each reply
   * adds at most one move.
   */
  function Run(mode: Mode, s: GameState, replies: seq<PeerReply>): (r: (Outcome, GameState))
    requires |s.cells| == 9
    ensures |r.1.cells| == 9
    ensures forall i | 0 <= i < 9 && s.cells[i] != ' ' :: r.1.cells[i] == s.cells[i]
    ensures s.moveCount <= r.1.moveCount <= s.moveCount + |replies|
    decreases |replies|
  {
    if replies == [] then (AwaitingReply, s)
    else
      match Step(mode, s, ReceivedMove(replies[0]))
      case Stop(outcome, last) => (outcome, last)
      case Continue(next) => Run(mode, next, replies[1..])
  }

  lemma RunUnfold(mode: Mode, s: GameState, replies: seq<PeerReply>)
    requires |s.cells| == 9 && replies != []
    ensures var r := Step(mode, s, ReceivedMove(replies[0]));
            Run(mode, s, replies) == if r.Stop? then (r.outcome, r.last) else Run(mode, r.next, replies[1..])
  {
  }

  /**
   * One pass of playGame's loop body on the board object: read a move for
   * player, then apply it and test for the end of the game. The result has
   * the form of Step: Stop when the loop breaks, Continue with the values of
   * currentPlayer and moveCount for the next pass otherwise.
   */
  method PlayTurn(mode: Mode, board: TicTacToeBoard, player: char, moveCount: int, reply: PeerReply)
    returns (r: StepResult)
    requires board.Valid()
    modifies board.cells
    ensures board.Valid()
    ensures r == Step(mode, GameState(old(board.cells[..]), player, moveCount), ReceivedMove(reply))
    ensures r.Continue? ==> r.next.cells == board.cells[..]
    ensures r.Stop? ==> r.last.cells == board.cells[..]
  {
    var s := GameState(board.cells[..], player, moveCount);
    var pos, _ := GetMove(board, reply);
    ghost var want := Step(mode, s, pos);  // the pass this body is proved to perform
    if pos == -1 {
      return Stop(PeerFailed(PeerOf(mode, player)), s);
    }
    if pos < 0 || pos > 8 {
      return Continue(s);
    }
    var ok := board.MakeMove(pos, player);
    if !ok {
      return Continue(s);
    }
    StepAccepts(mode, s, pos);
    assert board.cells[..] == s.cells[pos := player];
    var w := board.CheckWinner();
    var full := board.IsFull();
    if w != ' ' || full {
      var outcome := if w != ' ' then Won(w) else Draw;
      return Stop(outcome, GameState(board.cells[..], player, moveCount + 1));
    }
    return Continue(GameState(board.cells[..], Toggle(player), moveCount + 1));
  }

  /** The playGame turn loop on a board object, fed one reply per request. */
  method PlayGame(mode: Mode, replies: seq<PeerReply>)
    returns (outcome: Outcome, cells: seq<char>, player: char, moveCount: int)
    ensures (outcome, GameState(cells, player, moveCount)) == Run(mode, Start(), replies)
  {
    var board := new TicTacToeBoard();
    moveCount := 0;
    player := 'X';
    outcome := AwaitingReply;
    var i := 0;
    while i < |replies|
      invariant 0 <= i <= |replies|
      invariant board.Valid() && fresh(board.cells)
      invariant outcome == AwaitingReply
      invariant Run(mode, GameState(board.cells[..], player, moveCount), replies[i..])
             == Run(mode, Start(), replies)
      decreases |replies| - i
    {
      ghost var rest := replies[i..];
      RunUnfold(mode, GameState(board.cells[..], player, moveCount), rest);
      assert rest[0] == replies[i] && rest[1..] == replies[i + 1..];
      var r := PlayTurn(mode, board, player, moveCount, replies[i]);
      i := i + 1;
      if r.Stop? {
        outcome := r.outcome;
        player, moveCount := r.last.player, r.last.moveCount;
        assert r.last == GameState(board.cells[..], player, moveCount);
        break;
      }
      player, moveCount := r.next.player, r.next.moveCount;
      assert r.next == GameState(board.cells[..], player, moveCount);
    }
    if outcome == AwaitingReply {
      assert replies[i..] == [];
    }
    cells := board.cells[..];
  }

  /** Every cell holds a mark, X or O is to move, and moveCount counts the marks placed. */
  predicate Counted(s: GameState) {
    && |s.cells| == 9
    && (forall i | 0 <= i < 9 :: IsMark(s.cells[i]))
    && (s.player == 'X' || s.player == 'O')
    && s.moveCount == CountOf(s.cells, 'X') + CountOf(s.cells, 'O')
  }

  /** The player to move is X exactly when X and O have placed the same number of marks. */
  predicate Alternates(s: GameState) {
    && (s.player == 'X' ==> CountOf(s.cells, 'X') == CountOf(s.cells, 'O'))
    && (s.player == 'O' ==> CountOf(s.cells, 'X') == CountOf(s.cells, 'O') + 1)
  }

  /** The player recorded is the one who placed the last mark. */
  predicate MovedLast(s: GameState) {
    && (s.player == 'X' ==> CountOf(s.cells, 'X') == CountOf(s.cells, 'O') + 1)
    && (s.player == 'O' ==> CountOf(s.cells, 'X') == CountOf(s.cells, 'O'))
  }

  /** The state at the head of the loop: counted, alternating, nobody has won, a cell is free. */
  predicate AwaitingMove(s: GameState) {
    Counted(s) && Alternates(s) && Winner(s.cells) == ' ' && !Full(s.cells)
  }

  /** What a game that left the loop (or is waiting for a reply) looks like. */
  predicate Ended(mode: Mode, outcome: Outcome, t: GameState) {
    match outcome
    case AwaitingReply => AwaitingMove(t)
    case PeerFailed(peer) => AwaitingMove(t) && peer == PeerOf(mode, t.player)
    case Won(mark) =>
      Counted(t) && MovedLast(t) && mark == t.player && Winner(t.cells) == mark
    case Draw =>
      Counted(t) && MovedLast(t) && Full(t.cells) && Winner(t.cells) == ' ' && t.moveCount == 9
  }

  lemma StartAwaits()
    ensures AwaitingMove(Start())
    ensures Start().player == 'X' && Start().moveCount == 0
  {
    EmptyCellsBlank();
    EmptyCellsCounts();
    assert forall i | 0 <= i < 9 :: IsMark(EmptyCells[i]);
  }

  /** With every cell a mark, the board is full exactly when nine moves have been made. */
  lemma FullIffNineMoves(s: GameState)
    requires Counted(s)
    ensures 0 <= s.moveCount <= 9
    ensures Full(s.cells) <==> s.moveCount == 9
  {
    CountPartition(s.cells);
    CountZero(s.cells, ' ');
  }

  /** A move makeMove accepts places the mark, counts the move, and the player changes unless the game ends. */
  lemma StepAccepts(mode: Mode, s: GameState, pos: int)
    requires |s.cells| == 9 && Accepts(s.cells, pos)
    ensures var cells := s.cells[pos := s.player];
            var terminal := Winner(cells) != ' ' || Full(cells);
            Step(mode, s, pos) ==
              if terminal then Stop(if Winner(cells) != ' ' then Won(Winner(cells)) else Draw,
                                    GameState(cells, s.player, s.moveCount + 1))
              else Continue(GameState(cells, Toggle(s.player), s.moveCount + 1))
  {
  }

  /** On a board nobody has won, a won line after placing p at pos goes through pos, so p has won. */
  lemma WinnerIsMover(cells: seq<char>, pos: int, p: char)
    requires |cells| == 9 && Accepts(cells, pos) && p != ' '
    requires Winner(cells) == ' '
    ensures Winner(cells[pos := p]) == ' ' || Winner(cells[pos := p]) == p
  {
    var after := cells[pos := p];
    var w := Winner(after);
    if w != ' ' {
      var j :| 0 <= j < |WinPatterns| && LineWon(after, j) && w == after[WinPatterns[j].0];
      assert !LineWon(cells, j);
    }
  }

  /** Placing a mark on an empty cell keeps moveCount equal to the number of marks. */
  lemma PlaceKeepsCount(s: GameState, pos: int)
    requires Counted(s) && Accepts(s.cells, pos)
    ensures var t := GameState(s.cells[pos := s.player], s.player, s.moveCount + 1);
            Counted(t)
            && CountOf(t.cells, s.player) == CountOf(s.cells, s.player) + 1
            && CountOf(t.cells, Toggle(s.player)) == CountOf(s.cells, Toggle(s.player))
  {
    CountUpdate(s.cells, pos, s.player, 'X');
    CountUpdate(s.cells, pos, s.player, 'O');
  }

  /** A pass of the loop that goes round again leaves it in a state the loop can continue from. */
  lemma StepKeepsAwaiting(mode: Mode, s: GameState, pos: int)
    requires AwaitingMove(s)
    requires Step(mode, s, pos).Continue?
    ensures AwaitingMove(Step(mode, s, pos).next)
  {
    if pos != -1 && 0 <= pos <= 8 && Accepts(s.cells, pos) {
      PlaceKeepsCount(s, pos);
    }
  }

  /** A pass of the loop that leaves it leaves it in an Ended state. */
  lemma StepEnds(mode: Mode, s: GameState, pos: int)
    requires AwaitingMove(s)
    requires Step(mode, s, pos).Stop?
    ensures Ended(mode, Step(mode, s, pos).outcome, Step(mode, s, pos).last)
    ensures Step(mode, s, pos).outcome.PeerFailed? ==> Step(mode, s, pos).last == s
  {
    if pos != -1 {
      PlaceKeepsCount(s, pos);
      var t := Step(mode, s, pos).last;
      WinnerIsMover(s.cells, pos, s.player);
      FullIffNineMoves(t);
    }
  }

  /** From a state at the head of the loop, the run over any replies ends in an Ended state. */
  lemma {:induction false} RunEnds(mode: Mode, s: GameState, replies: seq<PeerReply>)
    requires AwaitingMove(s)
    ensures Ended(mode, Run(mode, s, replies).0, Run(mode, s, replies).1)
    decreases |replies|
  {
    if replies != [] {
      var pos := ReceivedMove(replies[0]);
      match Step(mode, s, pos)
      case Stop(outcome, last) =>
        StepEnds(mode, s, pos);
      case Continue(next) =>
        StepKeepsAwaiting(mode, s, pos);
        RunEnds(mode, next, replies[1..]);
    }
  }

  /**
   * Whatever the peers answer, a game ends in a state whose cells are marks,
   * whose moveCount is the number of marks (at most nine), with X and O
   * taking turns; a win belongs to the player who moved last and a draw
   * fills the board.
   */
  lemma GameEnds(mode: Mode, replies: seq<PeerReply>)
    ensures var (outcome, t) := Run(mode, Start(), replies);
            Ended(mode, outcome, t) && Counted(t) && 0 <= t.moveCount <= 9
  {
    StartAwaits();
    RunEnds(mode, Start(), replies);
    FullIffNineMoves(Run(mode, Start(), replies).1);
  }
}
