/**
 * What the server and its two kinds of peer promise each other over the
 * pipe: the bot reads back exactly the board the server sent, the move it
 * answers is one makeMove accepts, and its reply text is read back as that
 * move; a human's reply is read back as -1 or a cell index, so an entry out
 * of range ends the game and never reaches the server's re-prompt branch.
 */
module Protocol {
  import opened Wire
  import opened Board
  import opened Server
  import opened Bot
  import opened Human

  /** Every cell is a narrow char other than '\0', so it crosses the pipe and is read back unchanged. */
  predicate WireSafe(cells: seq<char>) {
    forall i | 0 <= i < |cells| :: cells[i] as int < 256 && cells[i] != '\0'
  }

  /** Decoding the board message the server sends gives back the server's nine cells. */
  lemma BotDecodesBoardMessage(cells: seq<char>)
    requires |cells| == 9 && WireSafe(cells)
    ensures Decode(BoardMessage(cells)) == cells
  {
    var text := BoardMessage(cells);
    UntilNulOf(text, []);
    assert text + [] == text;
    assert forall i | 0 <= i < 9 :: text[i] == cells[i];
  }

  /** On a board that is not full the bot's move is one makeMove accepts. */
  lemma BotMoveAccepted(cells: seq<char>)
    requires |cells| == 9 && !Full(cells)
    ensures Accepts(cells, FirstEmpty(cells))
  {
  }

  /** The server reads the bot's reply to its board message as the bot's chosen move. */
  lemma BotReplyRead(cells: seq<char>)
    requires |cells| == 9 && WireSafe(cells)
    ensures ReceivedMove(Received(BotResponse(BoardMessage(cells)))) == FirstEmpty(cells)
  {
    BotDecodesBoardMessage(cells);
  }

  /** At the head of the loop, a bot's turn places its mark on the first empty cell and counts the move. */
  lemma BotTurnMoves(mode: Mode, s: GameState)
    requires AwaitingMove(s)
    ensures var pos := FirstEmpty(s.cells);
            var r := Step(mode, s, ReceivedMove(Received(BotResponse(BoardMessage(s.cells)))));
            var t := if r.Stop? then r.last else r.next;
            && Accepts(s.cells, pos)
            && !(r.Stop? && r.outcome.PeerFailed?)
            && t.cells == s.cells[pos := s.player]
            && t.moveCount == s.moveCount + 1
  {
    assert WireSafe(s.cells) by {
      forall i | 0 <= i < 9 ensures s.cells[i] as int < 256 && s.cells[i] != '\0' {
        assert IsMark(s.cells[i]);
      }
    }
    BotReplyRead(s.cells);
    BotMoveAccepted(s.cells);
    StepAccepts(mode, s, FirstEmpty(s.cells));
  }

  /** The server reads a human's reply as the sanitised entry: -1 or a cell index. */
  lemma HumanReplyRead(move: int)
    ensures var pos := ReceivedMove(Received(HumanResponse(move)));
            pos == Sanitize(move) && -1 <= pos <= 8
  {
  }

  /** An entry outside 0..8 ends the game as a failure of that human's peer, with nothing changed. */
  lemma HumanOutOfRangeEndsGame(mode: Mode, s: GameState, move: int)
    requires |s.cells| == 9
    requires move < 0 || move > 8
    ensures Step(mode, s, ReceivedMove(Received(HumanResponse(move))))
         == Stop(PeerFailed(PeerOf(mode, s.player)), s)
  {
    HumanReplyRead(move);
  }
}
