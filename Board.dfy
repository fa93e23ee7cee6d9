/**
 * The 3x3 board the server keeps (class TicTacToeBoard in ttt/server.cpp).
 *
 * Cells are numbered 0..8 row by row and hold ' ' (empty), 'X' or 'O'.
 * The pure functions below say what a board of nine cells means (which
 * move is accepted, who has won, whether it is full, how it is sent);
 * the class keeps the nine cells in an array and its methods are proved
 * against those functions.
 */
module Board {

  /** An index of a cell. */
  type Pos = i: int | 0 <= i < 9

  /** The eight lines that win, in the order checkWinner tries them. */
  const WinPatterns: seq<(Pos, Pos, Pos)> := [
    (0, 1, 2), (3, 4, 5), (6, 7, 8),
    (0, 3, 6), (1, 4, 7), (2, 5, 8),
    (0, 4, 8), (2, 4, 6)
  ]

  /** The board after reset: nine empty cells. */
  const EmptyCells: seq<char> := [' ', ' ', ' ', ' ', ' ', ' ', ' ', ' ', ' ']

  /** The marks a cell can hold. */
  predicate IsMark(c: char) {
    c == ' ' || c == 'X' || c == 'O'
  }

  /** makeMove's test: the position is on the board and its cell is empty. */
  predicate Accepts(cells: seq<char>, pos: int)
    requires |cells| == 9
  {
    0 <= pos < 9 && cells[pos] == ' '
  }

  /** Line k holds three equal marks that are not empty. */
  predicate LineWon(cells: seq<char>, k: int)
    requires |cells| == 9 && 0 <= k < |WinPatterns|
  {
    var (a, b, c) := WinPatterns[k];
    cells[a] == cells[b] && cells[b] == cells[c] && cells[a] != ' '
  }

  /** The mark of the first won line among lines k.., or ' ' when none of them is won. */
  function WinnerFrom(cells: seq<char>, k: nat): (w: char)
    requires |cells| == 9 && k <= |WinPatterns|
    ensures (w == ' ') == (forall j | k <= j < |WinPatterns| :: !LineWon(cells, j))
    ensures w != ' ' ==> exists j | k <= j < |WinPatterns| :: LineWon(cells, j) && w == cells[WinPatterns[j].0]
    ensures forall j | k <= j < |WinPatterns| && LineWon(cells, j) ::
              (forall l | k <= l < j :: !LineWon(cells, l)) ==> w == cells[WinPatterns[j].0]
    decreases |WinPatterns| - k
  {
    if k == |WinPatterns| then ' '
    else if LineWon(cells, k) then cells[WinPatterns[k].0]
    else WinnerFrom(cells, k + 1)
  }

  /** What checkWinner answers for a board. */
  function Winner(cells: seq<char>): char
    requires |cells| == 9
  {
    WinnerFrom(cells, 0)
  }

  /** No cell is empty. */
  predicate Full(cells: seq<char>) {
    forall i | 0 <= i < |cells| :: cells[i] != ' '
  }

  /** The message getMove writes: the nine cells in index order, then a newline. */
  function BoardMessage(cells: seq<char>): (m: seq<char>)
    requires |cells| == 9
    ensures |m| == 10 && m[..9] == cells && m[9] == '\n'
  {
    cells + "\n"
  }

  /** The number of cells of s that hold c. */
  function CountOf(s: seq<char>, c: char): nat
    decreases |s|
  {
    if s == [] then 0 else (if s[0] == c then 1 else 0) + CountOf(s[1..], c)
  }

  lemma {:induction false} CountUpdate(s: seq<char>, i: int, x: char, c: char)
    requires 0 <= i < |s|
    ensures CountOf(s[i := x], c) == CountOf(s, c) - (if s[i] == c then 1 else 0) + (if x == c then 1 else 0)
    decreases |s|
  {
    if i == 0 {
      assert s[i := x][1..] == s[1..];
    } else {
      assert s[i := x][1..] == s[1..][i - 1 := x];
      CountUpdate(s[1..], i - 1, x, c);
    }
  }

  lemma {:induction false} CountZero(s: seq<char>, c: char)
    ensures CountOf(s, c) == 0 <==> forall i | 0 <= i < |s| :: s[i] != c
    decreases |s|
  {
    if s != [] {
      CountZero(s[1..], c);
      assert forall i | 1 <= i < |s| :: s[i] == s[1..][i - 1];
    }
  }

  /** On a board of marks, every cell is counted exactly once among ' ', 'X' and 'O'. */
  lemma {:induction false} CountPartition(s: seq<char>)
    requires forall i | 0 <= i < |s| :: IsMark(s[i])
    ensures CountOf(s, ' ') + CountOf(s, 'X') + CountOf(s, 'O') == |s|
    decreases |s|
  {
    if s != [] {
      assert forall i | 0 <= i < |s[1..]| :: s[1..][i] == s[i + 1];
      CountPartition(s[1..]);
    }
  }

  lemma EmptyCellsBlank()
    ensures |EmptyCells| == 9 && forall i | 0 <= i < 9 :: EmptyCells[i] == ' '
  {
  }

  lemma EmptyCellsCounts()
    ensures CountOf(EmptyCells, 'X') == 0 && CountOf(EmptyCells, 'O') == 0
    ensures Winner(EmptyCells) == ' ' && !Full(EmptyCells)
  {
    EmptyCellsBlank();
    CountZero(EmptyCells, 'X');
    CountZero(EmptyCells, 'O');
    forall j | 0 <= j < |WinPatterns| ensures !LineWon(EmptyCells, j) {
      assert EmptyCells[WinPatterns[j].0] == ' ';
    }
    assert EmptyCells[0] == ' ';
  }

  class TicTacToeBoard {
    var cells: array<char>

    ghost predicate Valid()
      reads this
    {
      cells.Length == 9
    }

    constructor ()
      ensures Valid() && fresh(cells)
      ensures cells[..] == EmptyCells
    {
      cells := new char[9];
      new;
      Reset();
    }

    /** Replaces the board by nine empty cells. */
    method Reset()
      modifies this
      ensures Valid() && fresh(cells)
      ensures cells[..] == EmptyCells
    {
      cells := new char[9](_ => ' ');
    }

    /** Places player at pos when the cell is on the board and empty; otherwise changes nothing. */
    method MakeMove(pos: int, player: char) returns (ok: bool)
      requires Valid()
      modifies cells
      ensures Valid()
      ensures ok == Accepts(old(cells[..]), pos)
      ensures cells[..] == if ok then old(cells[..])[pos := player] else old(cells[..])
      ensures forall i | 0 <= i < 9 && old(cells[i]) != ' ' :: cells[i] == old(cells[i])
    {
      if 0 <= pos < 9 && cells[pos] == ' ' {
        cells[pos] := player;
        return true;
      }
      return false;
    }

    /** operator[], used only to read a cell. */
    function Get(pos: Pos): (c: char)
      reads this, cells
      requires Valid()
      ensures c == cells[..][pos]
    {
      cells[pos]
    }

    method CheckWinner() returns (w: char)
      requires Valid()
      ensures w == Winner(cells[..])
    {
      for k := 0 to |WinPatterns|
        invariant forall j | 0 <= j < k :: !LineWon(cells[..], j)
      {
        var (a, b, c) := WinPatterns[k];
        if cells[a] == cells[b] && cells[b] == cells[c] && cells[a] != ' ' {
          return cells[a];
        }
      }
      return ' ';
    }

    method IsFull() returns (full: bool)
      requires Valid()
      ensures full == Full(cells[..])
    {
      for i := 0 to 9
        invariant forall j | 0 <= j < i :: cells[j] != ' '
      {
        if cells[i] == ' ' {
          return false;
        }
      }
      return true;
    }
  }
}
