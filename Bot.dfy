/**
 * The automated peer (bot1/bot1.cpp): for each board text the server sends,
 * it rebuilds a nine-cell board, takes the lowest empty cell (or -1 when
 * there is none) and answers with that number in decimal and a newline.
 *
 * The text arrives as wide characters and is made into a wide string, which
 * ends at the first L'\0'. The board holds narrow chars, so each cell keeps
 * the low byte of the character it is copied from.
 */
module Bot {
  import opened Wire
  import opened Board

  /** The conversion of a wchar_t to a char: the low byte of the code. */
  function Narrow(c: char): (n: char)
    ensures n as int < 256
    ensures c as int < 256 ==> n == c
  {
    (c as int % 256) as char
  }

  /** The wide string built from a NUL-terminated buffer: the text up to its first L'\0'. */
  function UntilNul(text: seq<char>): (t: seq<char>)
    ensures t <= text
    ensures forall i | 0 <= i < |t| :: t[i] != '\0'
    ensures |t| < |text| ==> text[|t|] == '\0'
    decreases |text|
  {
    if text == [] || text[0] == '\0' then [] else [text[0]] + UntilNul(text[1..])
  }

  /** The first n cells built from text: each copied (narrowed) while text lasts, ' ' after. */
  function CellsFrom(text: seq<char>, n: nat): (cells: seq<char>)
    ensures |cells| == n
    ensures forall i | 0 <= i < n :: cells[i] == if i < |text| then Narrow(text[i]) else ' '
    decreases n
  {
    if n == 0 then []
    else if text == [] then [' '] + CellsFrom([], n - 1)
    else [Narrow(text[0])] + CellsFrom(text[1..], n - 1)
  }

  /** The board the bot rebuilds from the text it read. */
  function Decode(text: seq<char>): seq<char> {
    CellsFrom(UntilNul(text), 9)
  }

  /** A wide string of text without L'\0', then the end or a L'\0', is that text. */
  lemma {:induction false} UntilNulOf(front: seq<char>, rest: seq<char>)
    requires forall i | 0 <= i < |front| :: front[i] != '\0'
    requires rest == [] || rest[0] == '\0'
    ensures UntilNul(front + rest) == front
    decreases |front|
  {
    if front != [] {
      assert (front + rest)[1..] == front[1..] + rest;
      UntilNulOf(front[1..], rest);
    }
  }

  /** Whatever follows the first L'\0' of the text is never seen: the cells from there on are ' '. */
  lemma DecodeStopsAtNul(front: seq<char>, rest: seq<char>)
    requires forall i | 0 <= i < |front| :: front[i] != '\0'
    ensures Decode(front + (['\0'] + rest)) == CellsFrom(front, 9)
  {
    UntilNulOf(front, ['\0'] + rest);
  }

  /** The lowest index of an empty cell, or -1 when no cell is empty. */
  function FirstEmpty(cells: seq<char>): (m: int)
    ensures -1 <= m < |cells|
    ensures m == -1 <==> Full(cells)
    ensures m >= 0 ==> cells[m] == ' ' && forall j | 0 <= j < m :: cells[j] != ' '
    decreases |cells|
  {
    if cells == [] then -1
    else if cells[0] == ' ' then 0
    else
      var m := FirstEmpty(cells[1..]);
      if m == -1 then -1 else m + 1
  }

  /** The reply the bot sends for a board text. */
  function BotResponse(text: seq<char>): seq<char> {
    MoveMessage(FirstEmpty(Decode(text)))
  }

  /** The board vector filled by the index loop over the text. */
  method DecodeBoard(text: seq<char>) returns (cells: seq<char>)
    ensures cells == Decode(text)
  {
    var boardState := UntilNul(text);
    var board := new char[9](_ => ' ');
    var i := 0;
    while i < 9 && i < |boardState|
      invariant 0 <= i <= 9 && i <= |boardState|
      invariant forall j | 0 <= j < i :: board[j] == Narrow(boardState[j])
      invariant forall j | i <= j < 9 :: board[j] == ' '
    {
      board[i] := Narrow(boardState[i]);
      i := i + 1;
    }
    cells := board[..];
    assert forall j | 0 <= j < 9 :: cells[j] == Decode(text)[j];
  }

  /** The search for the first available position, leaving the loop at the first empty cell. */
  method ChooseMove(cells: seq<char>) returns (move: int)
    requires |cells| == 9
    ensures move == FirstEmpty(cells)
  {
    move := -1;
    for i := 0 to 9
      invariant move == -1
      invariant forall j | 0 <= j < i :: cells[j] != ' '
    {
      if cells[i] == ' ' {
        move := i;
        break;
      }
    }
  }

  /** One round of the bot: decode the board text, choose, format the reply. */
  method BotReply(text: seq<char>) returns (reply: seq<char>)
    ensures reply == BotResponse(text)
  {
    var cells := DecodeBoard(text);
    var move := ChooseMove(cells);
    reply := FormatInt(move) + "\n";
  }
}
