/** The coordinate strings the board hands to its cells and decodes on a
    click: two non-negative integers in decimal, joined by '-'. */
module Coords {

  datatype Option<T> = None | Some(value: T)

  /** The separator between the two numbers of a coordinate string. */
  const Separator: char := '-'

  predicate IsDigit(c: char) {
    '0' <= c <= '9'
  }

  predicate AllDigits(s: string) {
    forall k :: 0 <= k < |s| ==> IsDigit(s[k])
  }

  function DigitChar(d: nat): (c: char)
    requires d < 10
    ensures IsDigit(c) && DigitValue(c) == d
  {
    ('0' as int + d) as char
  }

  function DigitValue(c: char): (d: nat)
    requires IsDigit(c)
    ensures d < 10
  {
    (c as int - '0' as int) as nat
  }

  /** The decimal text of `n` with no sign and no leading zero, as a template
      literal renders a non-negative integer. */
  function Decimal(n: nat): (s: string)
    ensures 1 <= |s|
    ensures AllDigits(s)
    ensures Separator !in s
    decreases n
  {
    if n < 10 then [DigitChar(n)] else Decimal(n / 10) + [DigitChar(n % 10)]
  }

  /** The value of a string of decimal digits, read from the left. */
  function DigitsValue(s: string): nat
    requires AllDigits(s)
  {
    if |s| == 0 then 0 else 10 * DigitsValue(s[..|s| - 1]) + DigitValue(s[|s| - 1])
  }

  /** Conversion of one piece of a coordinate string to a number. The empty
      string converts to 0; a string of digits to its decimal value; anything
      else is outside the modelled conversion and yields None. */
  function ParseNumber(s: string): Option<nat> {
    if AllDigits(s) then Some(DigitsValue(s)) else None
  }

  /** Reading back the decimal text of `n` gives `n`. */
  lemma {:induction false} DecimalRoundTrip(n: nat)
    ensures ParseNumber(Decimal(n)) == Some(n)
    decreases n
  {
    var s := Decimal(n);
    if n < 10 {
      assert s[..|s| - 1] == [];
      assert DigitsValue(s) == DigitValue(DigitChar(n));
    } else {
      DecimalRoundTrip(n / 10);
      assert s[..|s| - 1] == Decimal(n / 10);
    }
  }

  /** Splits `s` at every separator, keeping empty pieces: "a-b" gives
      ["a", "b"], "" gives [""], "-" gives ["", ""]. */
  function Split(s: string): (parts: seq<string>)
    ensures 1 <= |parts|
    ensures forall p :: 0 <= p < |parts| ==> Separator !in parts[p]
    decreases |s|
  {
    if |s| == 0 then [""]
    else if s[0] == Separator then [""] + Split(s[1..])
    else
      var rest := Split(s[1..]);
      [[s[0]] + rest[0]] + rest[1..]
  }

  /** The pieces joined back together with the separator between them. */
  function Join(parts: seq<string>): string
    requires 1 <= |parts|
  {
    if |parts| == 1 then parts[0] else parts[0] + [Separator] + Join(parts[1..])
  }

  /** Joining the pieces of a split gives back the string. */
  lemma {:induction false} JoinSplit(s: string)
    ensures Join(Split(s)) == s
    decreases |s|
  {
    if |s| > 0 {
      JoinSplit(s[1..]);
      var rest := Split(s[1..]);
      if s[0] != Separator {
        if |rest| == 1 {
          assert Join(Split(s)) == [s[0]] + rest[0];
        } else {
          assert Join(Split(s)) == [s[0]] + (rest[0] + [Separator] + Join(rest[1..]));
          assert [[s[0]] + rest[0]] + rest[1..] == Split(s);
          assert (Split(s))[1..] == rest[1..];
        }
      }
    }
  }

  /** A string without a separator is a single piece. */
  lemma {:induction false} SplitNoSeparator(s: string)
    requires Separator !in s
    ensures Split(s) == [s]
    decreases |s|
  {
    if |s| > 0 {
      SplitNoSeparator(s[1..]);
      assert [s[0]] + s[1..] == s;
    }
  }

  /** Two separator-free strings joined by one separator split into those two. */
  lemma {:induction false} SplitPair(a: string, c: string)
    requires Separator !in a && Separator !in c
    ensures Split(a + [Separator] + c) == [a, c]
    decreases |a|
  {
    var s := a + [Separator] + c;
    if |a| == 0 {
      assert s == [Separator] + c;
      assert s[1..] == c;
      SplitNoSeparator(c);
    } else {
      assert s[1..] == a[1..] + [Separator] + c;
      SplitPair(a[1..], c);
      assert [a[0]] + a[1..] == a;
    }
  }

  /** The coordinate string for the pair (first, second): "first-second". */
  function Format(first: nat, second: nat): string {
    Decimal(first) + [Separator] + Decimal(second)
  }

  /** The decoding a click applies to a coordinate string: split it at the
      separator and convert the first two pieces, the first giving the row y
      and the second the column x. Fewer than two pieces, or a piece the
      conversion does not cover, gives None. */
  function ParseCoord(coord: string): Option<(int, int)> {
    var parts := Split(coord);
    if |parts| < 2 then None
    else
      match (ParseNumber(parts[0]), ParseNumber(parts[1]))
      case (Some(y), Some(x)) => Some((y, x))
      case _ => None
  }

  /** Decoding a formatted pair gives back the pair, in the same order. */
  lemma ParseFormat(first: nat, second: nat)
    ensures ParseCoord(Format(first, second)) == Some((first, second))
  {
    SplitPair(Decimal(first), Decimal(second));
    DecimalRoundTrip(first);
    DecimalRoundTrip(second);
  }

  /** The coordinate string the board gives to the cell at row i, column j:
      the column first, then the row. */
  function CellCoords(i: nat, j: nat): string {
    Format(j, i)
  }

  /** Decoding the string of the cell at row i, column j yields y = j and
      x = i: the decoded centre is the transposed cell. */
  lemma CellCoordsDecodeTransposed(i: nat, j: nat)
    ensures ParseCoord(CellCoords(i, j)) == Some((j, i))
  {
    ParseFormat(j, i);
  }
}
