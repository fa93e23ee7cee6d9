/**
 * Decimal text on the pipes.
 *
 * Both peers send a move as `std::to_wstring(move) + L"\n"` and the server
 * turns the text it reads back into an int with `_wtoi`. FormatInt is the
 * decimal rendering of an int; ParseInt is a decimal-prefix reader: an
 * optional sign, then the longest run of digits, with 0 when there are no
 * digits (which is what `_wtoi` returns for text that is not a number).
 */
module Wire {

  predicate IsDigit(c: char) {
    '0' <= c <= '9'
  }

  predicate AllDigits(s: seq<char>) {
    forall i | 0 <= i < |s| :: IsDigit(s[i])
  }

  function DigitChar(d: int): (c: char)
    requires 0 <= d < 10
    ensures IsDigit(c) && c as int - '0' as int == d
  {
    ('0' as int + d) as char
  }

  function DigitValue(c: char): int
    requires IsDigit(c)
  {
    c as int - '0' as int
  }

  /** The decimal digits of n, most significant first, without leading zeros. */
  function NatDigits(n: nat): (s: seq<char>)
    ensures |s| > 0 && AllDigits(s)
    ensures |s| > 1 ==> s[0] != '0'
    decreases n
  {
    if n < 10 then [DigitChar(n)] else NatDigits(n / 10) + [DigitChar(n % 10)]
  }

  /** `std::to_wstring` on an int: a minus sign for negative values, then the digits. */
  function FormatInt(n: int): (s: seq<char>)
    ensures |s| > 0
    ensures n < 0 <==> s[0] == '-'
    ensures n < 0 ==> |s| > 1 && AllDigits(s[1..])
    ensures n >= 0 ==> AllDigits(s)
  {
    if n < 0 then ['-'] + NatDigits(-n) else NatDigits(n)
  }

  /** The number a string of digits denotes. */
  function DigitsValue(s: seq<char>): nat
    requires AllDigits(s)
    decreases |s|
  {
    if s == [] then 0 else DigitsValue(s[..|s| - 1]) * 10 + DigitValue(s[|s| - 1])
  }

  /** The longest prefix of s made of digits. */
  function DigitRun(s: seq<char>): (d: seq<char>)
    ensures d <= s && AllDigits(d)
    ensures |d| < |s| ==> !IsDigit(s[|d|])
    decreases |s|
  {
    if s != [] && IsDigit(s[0]) then [s[0]] + DigitRun(s[1..]) else []
  }

  /** The leading integer of s: an optional sign, then the digit run (0 if empty). */
  function ParseInt(s: seq<char>): (n: int)
    ensures s != [] && s[0] == '-' ==> n <= 0
    ensures (s == [] || s[0] != '-') ==> n >= 0
    ensures (s == [] || !(s[0] == '-' || s[0] == '+' || IsDigit(s[0]))) ==> n == 0
  {
    if s != [] && s[0] == '-' then 0 - DigitsValue(DigitRun(s[1..]))
    else if s != [] && s[0] == '+' then DigitsValue(DigitRun(s[1..]))
    else DigitsValue(DigitRun(s))
  }

  /** True when a reader of digits stops at the start of s. */
  predicate StopsDigits(s: seq<char>) {
    s == [] || !IsDigit(s[0])
  }

  lemma {:induction false} DigitRunOfDigits(ds: seq<char>, rest: seq<char>)
    requires AllDigits(ds) && StopsDigits(rest)
    ensures DigitRun(ds + rest) == ds
    decreases |ds|
  {
    if ds == [] {
      assert ds + rest == rest;
    } else {
      assert (ds + rest)[1..] == ds[1..] + rest;
      DigitRunOfDigits(ds[1..], rest);
    }
  }

  lemma {:induction false} NatDigitsValue(n: nat)
    ensures DigitsValue(NatDigits(n)) == n
    decreases n
  {
    if n >= 10 {
      var s := NatDigits(n);
      assert s[..|s| - 1] == NatDigits(n / 10);
      NatDigitsValue(n / 10);
    }
  }

  lemma DigitsThenStop(m: nat, rest: seq<char>)
    requires StopsDigits(rest)
    ensures DigitsValue(DigitRun(NatDigits(m) + rest)) == m
  {
    DigitRunOfDigits(NatDigits(m), rest);
    NatDigitsValue(m);
  }

  /** ParseInt on a string that starts with a minus sign. */
  lemma ParseMinus(t: seq<char>)
    requires t != [] && t[0] == '-'
    ensures ParseInt(t) == 0 - DigitsValue(DigitRun(t[1..]))
  {
  }

  /** ParseInt on a string that starts with a digit. */
  lemma ParseDigit(t: seq<char>)
    requires t != [] && IsDigit(t[0])
    ensures ParseInt(t) == DigitsValue(DigitRun(t))
  {
  }

  lemma TailAfterSign(c: char, ds: seq<char>, rest: seq<char>)
    ensures (([c] + ds) + rest)[0] == c
    ensures (([c] + ds) + rest)[1..] == ds + rest
  {
  }

  lemma ParseFormatNegative(n: int, rest: seq<char>)
    requires n < 0 && StopsDigits(rest)
    ensures ParseInt(FormatInt(n) + rest) == n
  {
    var ds := NatDigits(-n);
    assert FormatInt(n) == ['-'] + ds;
    TailAfterSign('-', ds, rest);
    DigitsThenStop(-n, rest);
    ParseMinus(FormatInt(n) + rest);
  }

  lemma ParseFormatNatural(n: nat, rest: seq<char>)
    requires StopsDigits(rest)
    ensures ParseInt(FormatInt(n) + rest) == n
  {
    var ds := NatDigits(n);
    var t := ds + rest;
    assert FormatInt(n) + rest == t;
    assert t[0] == ds[0];
    DigitsThenStop(n, rest);
    ParseDigit(t);
  }

  /** Reading back the decimal form of n, followed by anything that is not a digit, gives n. */
  lemma ParseFormat(n: int, rest: seq<char>)
    requires StopsDigits(rest)
    ensures ParseInt(FormatInt(n) + rest) == n
  {
    if n < 0 {
      ParseFormatNegative(n, rest);
    } else {
      ParseFormatNatural(n, rest);
    }
  }

  /** The move message a peer writes: the decimal form of the move and a newline. */
  function MoveMessage(move: int): (m: seq<char>)
    ensures |m| >= 2 && m[|m| - 1] == '\n'
    ensures ParseInt(m) == move
  {
    ParseFormat(move, "\n");
    FormatInt(move) + "\n"
  }
}
