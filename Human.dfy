/**
 * The human peer (human/human.cpp): the number typed at the console is
 * sent as read when it is a cell index 0..8 and replaced by -1 otherwise,
 * in decimal followed by a newline. Reading the console is not modelled:
 * the number read is a parameter.
 */
module Human {
  import opened Wire

  /** The move sent for the number entered. */
  function Sanitize(move: int): (sent: int)
    ensures -1 <= sent <= 8
    ensures 0 <= move <= 8 ==> sent == move
    ensures move < 0 || move > 8 ==> sent == -1
  {
    if move < 0 || move > 8 then -1 else move
  }

  /** The reply text for the number entered; the server reads back the sanitised move. */
  function HumanResponse(move: int): (m: seq<char>)
    ensures |m| >= 2 && m[|m| - 1] == '\n'
    ensures ParseInt(m) == Sanitize(move)
  {
    MoveMessage(Sanitize(move))
  }
}
