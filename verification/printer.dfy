/**
 The two text printers of a Table: the plain operator<< and the FormatedTable operator<<.

 Both walk the rows top to bottom and the columns left to right. A cell above
 Table::empty is written as its decimal numeral, any other cell as '.'. The plain printer
 puts one space between neighbouring tokens; the formatted one puts three spaces before
 columns 3 and 6 and one elsewhere, and adds an empty line after rows 2 and 5. Every row
 ends with a newline (std::endl; its flush is not modelled).

 The printers are given as functions from a grid to the text they write. Each is paired
 with a reading-back of that text: splitting it at newlines and spaces recovers the rows
 and the tokens, and each token reads back as the cell's value (0 for '.').
 */
module Printer {
  import opened Table

  // ---------------------------------------------------------------------------------
  // Tokens

  function DigitChar(d: int): (c: char)
    requires 0 <= d < 10
    ensures '0' <= c <= '9'
  {
    (('0' as int) + d) as char
  }

  function DigitValue(c: char): int
  {
    (c as int) - ('0' as int)
  }

  /** The decimal numeral of a positive value, most significant digit first. */
  function Decimal(n: int): (s: string)
    requires n > 0
    ensures |s| > 0 && s[0] != '0'
    ensures forall i :: 0 <= i < |s| ==> '0' <= s[i] <= '9'
    decreases n
  {
    if n < 10 then [DigitChar(n)] else Decimal(n / 10) + [DigitChar(n % 10)]
  }

  /** Reads a string of digits as a decimal number. */
  function ParseDecimal(s: string): int
  {
    if |s| == 0 then 0 else ParseDecimal(s[..|s| - 1]) * 10 + DigitValue(s[|s| - 1])
  }

  /** Reading the numeral back gives the number. */
  lemma {:induction false} DecimalRoundTrip(n: int)
    requires n > 0
    ensures ParseDecimal(Decimal(n)) == n
    decreases n
  {
    if n < 10 {
      assert [DigitChar(n)][..0] == [];
    } else {
      DecimalRoundTrip(n / 10);
      var s := Decimal(n / 10) + [DigitChar(n % 10)];
      assert s[..|s| - 1] == Decimal(n / 10);
    }
  }

  /** What one cell prints as. */
  function Token(v: int): (s: string)
    ensures |s| > 0
    ensures forall i :: 0 <= i < |s| ==> s[i] != ' ' && s[i] != '\n'
  {
    if v > Empty then Decimal(v) else "."
  }

  /** Reading a token back: '.' is an empty cell, a numeral is its value. */
  function ReadToken(s: string): int
  {
    if s == "." then Empty else ParseDecimal(s)
  }

  /** A cell prints as '.' exactly when it is not above Table::empty, and its token reads
      back as its value, or as 0 when it was not positive. */
  lemma TokenRoundTrip(v: int)
    ensures Token(v) == "." <==> v <= Empty
    ensures ReadToken(Token(v)) == (if v > Empty then v else Empty)
  {
    if v > Empty {
      var s := Decimal(v);
      assert '0' <= s[0] <= '9';
      assert s != ".";
      DecimalRoundTrip(v);
    }
  }

  /** The nine tokens of row y, left to right. */
  function RowTokens(t: Grid, y: int): (ts: seq<string>)
    requires 0 <= y < 9
    ensures |ts| == 9
    ensures forall x :: 0 <= x < 9 ==> ts[x] == Token(Cell(t, x, y))
  {
    seq(9, x requires 0 <= x < 9 => Token(Cell(t, x, y)))
  }

  // ---------------------------------------------------------------------------------
  // Splitting text at a separator

  /** The pieces of s between occurrences of sep (n separators give n + 1 pieces). */
  function Split(s: string, sep: char): (r: seq<string>)
    ensures |r| > 0
    decreases |s|
  {
    if |s| == 0 then [""]
    else if s[0] == sep then [""] + Split(s[1..], sep)
    else
      var rest := Split(s[1..], sep);
      [[s[0]] + rest[0]] + rest[1..]
  }

  /** Splitting at one occurrence of the separator splits the two sides independently. */
  lemma {:induction false} SplitAround(a: string, b: string, sep: char)
    ensures Split(a + [sep] + b, sep) == Split(a, sep) + Split(b, sep)
    decreases |a|
  {
    var s := a + [sep] + b;
    if |a| == 0 {
      assert s[0] == sep && s[1..] == b;
    } else {
      assert s[0] == a[0];
      assert s[1..] == a[1..] + [sep] + b;
      SplitAround(a[1..], b, sep);
    }
  }

  /** Text without the separator is a single piece. */
  lemma {:induction false} SplitWhole(a: string, sep: char)
    requires Clean(a, sep)
    ensures Split(a, sep) == [a]
    decreases |a|
  {
    if |a| > 0 {
      SplitWhole(a[1..], sep);
      assert [a[0]] + a[1..] == a;
    }
  }

  /** Text that does not contain the separator. */
  predicate Clean(a: string, sep: char)
  {
    forall i :: 0 <= i < |a| ==> a[i] != sep
  }

  /** A clean piece followed by a separator and more text. */
  lemma SplitClean(a: string, b: string, sep: char)
    requires Clean(a, sep)
    ensures Split(a + [sep] + b, sep) == [a] + Split(b, sep)
  {
    SplitAround(a, b, sep);
    SplitWhole(a, sep);
  }

  /** Tokens hold neither spaces nor newlines. */
  lemma TokenIsClean(v: int)
    ensures Clean(Token(v), ' ') && Clean(Token(v), '\n')
  {
  }

  // ---------------------------------------------------------------------------------
  // Layout of tokens into rows and of rows into text

  /** Tokens x.. of a row: the token of x, then a single space before each further token. */
  function SpacedFrom(ts: seq<string>, x: int): string
    requires 0 <= x < |ts|
    decreases |ts| - x
  {
    ts[x] + (if x == |ts| - 1 then "" else " " + SpacedFrom(ts, x + 1))
  }

  /** What the formatted printer writes before column x > 0: three spaces before the first
      column of a box, one space otherwise. */
  function Gap(x: int): string
  {
    if x % 3 == 0 then "   " else " "
  }

  /** Tokens x..8 of a row in the formatted layout. */
  function GappedFrom(ts: seq<string>, x: int): string
    requires |ts| == 9 && 0 <= x < 9
    decreases 9 - x
  {
    ts[x] + (if x == 8 then "" else Gap(x + 1) + GappedFrom(ts, x + 1))
  }

  /** Rows y.. each followed by a newline. */
  function LinesFrom(rows: seq<string>, y: int): string
    requires 0 <= y <= |rows|
    decreases |rows| - y
  {
    if y == |rows| then "" else rows[y] + "\n" + LinesFrom(rows, y + 1)
  }

  /** What the formatted printer writes after row y: a newline, and a second one after
      rows 2 and 5. */
  function RowEnd(y: int): string
  {
    if y % 3 == 2 && y != 8 then "\n\n" else "\n"
  }

  /** Rows y..8 each followed by its row end. */
  function BandedFrom(rows: seq<string>, y: int): string
    requires |rows| == 9 && 0 <= y <= 9
    decreases 9 - y
  {
    if y == 9 then "" else rows[y] + RowEnd(y) + BandedFrom(rows, y + 1)
  }

  // ---------------------------------------------------------------------------------
  // Splitting the layouts back

  /** Space-separated clean tokens split back into the tokens. */
  lemma {:induction false} SpacedSplit(ts: seq<string>, x: int)
    requires 0 <= x < |ts|
    requires forall k :: 0 <= k < |ts| ==> Clean(ts[k], ' ')
    ensures Split(SpacedFrom(ts, x), ' ') == ts[x..]
    decreases |ts| - x
  {
    if x == |ts| - 1 {
      SplitWhole(ts[x], ' ');
      assert SpacedFrom(ts, x) == ts[x];
      assert ts[x..] == [ts[x]];
    } else {
      SpacedSplit(ts, x + 1);
      assert SpacedFrom(ts, x) == ts[x] + [' '] + SpacedFrom(ts, x + 1);
      SplitClean(ts[x], SpacedFrom(ts, x + 1), ' ');
      assert ts[x..] == [ts[x]] + ts[x + 1..];
    }
  }

  /** Joining clean pieces with a separator introduces no other separator... */
  lemma {:induction false} SpacedClean(ts: seq<string>, x: int, c: char)
    requires 0 <= x < |ts| && c != ' '
    requires forall k :: 0 <= k < |ts| ==> Clean(ts[k], c)
    ensures Clean(SpacedFrom(ts, x), c)
    decreases |ts| - x
  {
    if x < |ts| - 1 {
      SpacedClean(ts, x + 1, c);
      var a, b := ts[x], SpacedFrom(ts, x + 1);
      assert SpacedFrom(ts, x) == a + ([' '] + b);
    }
  }

  lemma {:induction false} GappedClean(ts: seq<string>, x: int, c: char)
    requires |ts| == 9 && 0 <= x < 9 && c != ' '
    requires forall k :: 0 <= k < 9 ==> Clean(ts[k], c)
    ensures Clean(GappedFrom(ts, x), c)
    decreases 9 - x
  {
    if x < 8 {
      GappedClean(ts, x + 1, c);
      var a, b := ts[x], Gap(x + 1) + GappedFrom(ts, x + 1);
      assert GappedFrom(ts, x) == a + b;
    }
  }

  /** Three spaces split into two empty pieces between their neighbours. */
  lemma SplitThreeSpaces(a: string, b: string)
    requires Clean(a, ' ')
    ensures Split(a + "   " + b, ' ') == [a, "", ""] + Split(b, ' ')
  {
    assert a + "   " + b == a + [' '] + ([] + [' '] + ([] + [' '] + b));
    SplitClean(a, [] + [' '] + ([] + [' '] + b), ' ');
    SplitClean([], [] + [' '] + b, ' ');
    SplitClean([], b, ' ');
    assert [] + [' '] + b == [' '] + b;
  }

  /** One formatted step: the token of x, the gap before x + 1, the rest of the row. */
  lemma GappedStep(ts: seq<string>, x: int)
    requires |ts| == 9 && 0 <= x < 8 && Clean(ts[x], ' ')
    ensures Split(GappedFrom(ts, x), ' ') ==
              [ts[x]] + (if (x + 1) % 3 == 0 then ["", ""] else []) + Split(GappedFrom(ts, x + 1), ' ')
  {
    var rest := GappedFrom(ts, x + 1);
    if (x + 1) % 3 == 0 {
      assert GappedFrom(ts, x) == ts[x] + "   " + rest;
      SplitThreeSpaces(ts[x], rest);
    } else {
      assert GappedFrom(ts, x) == ts[x] + [' '] + rest;
      SplitClean(ts[x], rest, ' ');
    }
  }

  /** The pieces of tokens x..8 of the formatted layout split at single spaces: each token,
      and two empty pieces after the last token of a box but the last. */
  function GappedLayout(ts: seq<string>, x: int): seq<string>
    requires |ts| == 9 && 0 <= x < 9
    decreases 9 - x
  {
    if x == 8 then [ts[8]]
    else if (x + 1) % 3 == 0 then [ts[x], "", ""] + GappedLayout(ts, x + 1)
    else [ts[x]] + GappedLayout(ts, x + 1)
  }

  lemma {:induction false} GappedSplit(ts: seq<string>, x: int)
    requires |ts| == 9 && 0 <= x < 9
    requires forall k :: 0 <= k < 9 ==> Clean(ts[k], ' ')
    ensures Split(GappedFrom(ts, x), ' ') == GappedLayout(ts, x)
    decreases 9 - x
  {
    if x == 8 {
      SplitWhole(ts[x], ' ');
      assert GappedFrom(ts, x) == ts[x];
    } else {
      GappedSplit(ts, x + 1);
      GappedStep(ts, x);
    }
  }

  /** Three heads in front of a tail, written as one display. */
  lemma Cons3<T>(a: T, b: T, c: seq<T>, rest: seq<T>)
    ensures [a] + ([b] + (c + rest)) == [a, b] + c + rest
  {
  }

  /** A box of the formatted row other than the last: three tokens and two empty pieces. */
  lemma GappedBox(ts: seq<string>, x: int)
    requires |ts| == 9 && (x == 0 || x == 3)
    ensures GappedLayout(ts, x) == [ts[x], ts[x + 1]] + [ts[x + 2], "", ""] + GappedLayout(ts, x + 3)
  {
    Cons3(ts[x], ts[x + 1], [ts[x + 2], "", ""], GappedLayout(ts, x + 3));
  }

  /** The pieces of a formatted row, box by box. */
  lemma GappedLayoutOfNine(ts: seq<string>)
    requires |ts| == 9
    ensures GappedLayout(ts, 0) ==
              [ts[0], ts[1]] + [ts[2], "", ""] + ([ts[3], ts[4]] + [ts[5], "", ""] + ([ts[6], ts[7]] + [ts[8]]))
  {
    assert GappedLayout(ts, 6) == [ts[6]] + ([ts[7]] + [ts[8]]);
    assert [ts[6]] + ([ts[7]] + [ts[8]]) == [ts[6], ts[7]] + [ts[8]];
    GappedBox(ts, 3);
    GappedBox(ts, 0);
  }

  /** Newline-terminated clean rows split back into the rows and an empty rest. */
  lemma {:induction false} LinesSplit(rows: seq<string>, y: int)
    requires 0 <= y <= |rows|
    requires forall k :: 0 <= k < |rows| ==> Clean(rows[k], '\n')
    ensures Split(LinesFrom(rows, y), '\n') == rows[y..] + [""]
    decreases |rows| - y
  {
    if y < |rows| {
      LinesSplit(rows, y + 1);
      SplitClean(rows[y], LinesFrom(rows, y + 1), '\n');
      assert rows[y..] == [rows[y]] + rows[y + 1..];
    }
  }

  /** The rows y.. of the formatted layout, with an empty line after rows 2 and 5. */
  function BandedLayout(rows: seq<string>, y: int): seq<string>
    requires |rows| == 9 && 0 <= y <= 9
    decreases 9 - y
  {
    if y == 9 then [""]
    else if y % 3 == 2 && y != 8 then [rows[y], ""] + BandedLayout(rows, y + 1)
    else [rows[y]] + BandedLayout(rows, y + 1)
  }

  /** A clean row followed by two newlines splits into the row and an empty line. */
  lemma SplitBlankLine(a: string, b: string)
    requires Clean(a, '\n')
    ensures Split(a + "\n\n" + b, '\n') == [a, ""] + Split(b, '\n')
  {
    assert a + "\n\n" + b == a + ['\n'] + ([] + ['\n'] + b);
    SplitClean(a, [] + ['\n'] + b, '\n');
    SplitClean([], b, '\n');
    assert [] + ['\n'] + b == ['\n'] + b;
  }

  lemma {:induction false} BandedSplit(rows: seq<string>, y: int)
    requires |rows| == 9 && 0 <= y <= 9
    requires forall k :: 0 <= k < 9 ==> Clean(rows[k], '\n')
    ensures Split(BandedFrom(rows, y), '\n') == BandedLayout(rows, y)
    decreases 9 - y
  {
    if y < 9 {
      BandedSplit(rows, y + 1);
      var rest := BandedFrom(rows, y + 1);
      if y % 3 == 2 && y != 8 {
        assert BandedFrom(rows, y) == rows[y] + "\n\n" + rest;
        SplitBlankLine(rows[y], rest);
      } else {
        assert BandedFrom(rows, y) == rows[y] + ['\n'] + rest;
        SplitClean(rows[y], rest, '\n');
      }
    }
  }

  /** A band of the formatted text other than the last: three rows and an empty line. */
  lemma Band(rows: seq<string>, y: int)
    requires |rows| == 9 && (y == 0 || y == 3)
    ensures BandedLayout(rows, y) == [rows[y], rows[y + 1]] + [rows[y + 2], ""] + BandedLayout(rows, y + 3)
  {
    Cons3(rows[y], rows[y + 1], [rows[y + 2], ""], BandedLayout(rows, y + 3));
  }

  /** The banded layout of nine rows, band by band. */
  lemma BandedLayoutOfNine(rows: seq<string>)
    requires |rows| == 9
    ensures BandedLayout(rows, 0) ==
              [rows[0], rows[1]] + [rows[2], ""] + ([rows[3], rows[4]] + [rows[5], ""] + ([rows[6], rows[7]] + [rows[8], ""]))
  {
    assert BandedLayout(rows, 6) == [rows[6]] + ([rows[7]] + ([rows[8]] + [""]));
    assert [rows[6]] + ([rows[7]] + ([rows[8]] + [""])) == [rows[6], rows[7]] + [rows[8], ""];
    Band(rows, 3);
    Band(rows, 0);
  }

  // ---------------------------------------------------------------------------------
  // The printers

  /** Row y as the plain printer writes it. */
  function PlainRow(t: Grid, y: int): string
    requires 0 <= y < 9
  {
    SpacedFrom(RowTokens(t, y), 0)
  }

  function PlainRows(t: Grid): (rows: seq<string>)
    ensures |rows| == 9
    ensures forall y :: 0 <= y < 9 ==> rows[y] == PlainRow(t, y)
  {
    seq(9, y requires 0 <= y < 9 => PlainRow(t, y))
  }

  /** operator<<(ostream, Table). */
  function Plain(t: Grid): string
  {
    LinesFrom(PlainRows(t), 0)
  }

  /** Row y as the formatted printer writes it. */
  function FormattedRow(t: Grid, y: int): string
    requires 0 <= y < 9
  {
    GappedFrom(RowTokens(t, y), 0)
  }

  function FormattedRows(t: Grid): (rows: seq<string>)
    ensures |rows| == 9
    ensures forall y :: 0 <= y < 9 ==> rows[y] == FormattedRow(t, y)
  {
    seq(9, y requires 0 <= y < 9 => FormattedRow(t, y))
  }

  /** operator<<(ostream, FormatedTable). */
  function Formatted(t: Grid): string
  {
    BandedFrom(FormattedRows(t), 0)
  }

  /** The tokens of a row are clean. */
  lemma RowTokensClean(t: Grid, y: int, c: char)
    requires 0 <= y < 9 && (c == ' ' || c == '\n')
    ensures forall k :: 0 <= k < 9 ==> Clean(RowTokens(t, y)[k], c)
  {
    forall k | 0 <= k < 9 ensures Clean(RowTokens(t, y)[k], c) {
      TokenIsClean(Cell(t, k, y));
    }
  }

  /** The plain row is its nine tokens separated by single spaces. */
  lemma PlainRowTokens(t: Grid, y: int)
    requires 0 <= y < 9
    ensures Split(PlainRow(t, y), ' ') == RowTokens(t, y)
    ensures Clean(PlainRow(t, y), '\n')
  {
    RowTokensClean(t, y, ' ');
    RowTokensClean(t, y, '\n');
    SpacedSplit(RowTokens(t, y), 0);
    SpacedClean(RowTokens(t, y), 0, '\n');
  }

  /** The plain text is nine newline-terminated lines, the rows top to bottom. */
  lemma PlainLines(t: Grid)
    ensures Split(Plain(t), '\n') == PlainRows(t) + [""]
  {
    var rows := PlainRows(t);
    forall y | 0 <= y < 9 ensures Clean(rows[y], '\n') {
      PlainRowTokens(t, y);
    }
    LinesSplit(rows, 0);
  }

  /** Reading the plain text back: line y, token x is cell (x, y), with every value not
      above 0 read as 0. */
  lemma PlainReadBack(t: Grid, x: int, y: int)
    requires 0 <= x < 9 && 0 <= y < 9
    ensures |Split(Plain(t), '\n')| == 10
    ensures var line := Split(Plain(t), '\n')[y];
            |Split(line, ' ')| == 9 &&
            ReadToken(Split(line, ' ')[x]) == (if Cell(t, x, y) > Empty then Cell(t, x, y) else Empty)
  {
    PlainLines(t);
    PlainRowTokens(t, y);
    TokenRoundTrip(Cell(t, x, y));
  }

  /** The formatted row: the tokens, three spaces before columns 3 and 6, one elsewhere. */
  lemma FormattedRowTokens(t: Grid, y: int)
    requires 0 <= y < 9
    ensures var ts := RowTokens(t, y);
            Split(FormattedRow(t, y), ' ') ==
              [ts[0], ts[1]] + [ts[2], "", ""] + ([ts[3], ts[4]] + [ts[5], "", ""] + ([ts[6], ts[7]] + [ts[8]]))
    ensures Clean(FormattedRow(t, y), '\n')
  {
    RowTokensClean(t, y, ' ');
    RowTokensClean(t, y, '\n');
    GappedSplit(RowTokens(t, y), 0);
    GappedLayoutOfNine(RowTokens(t, y));
    GappedClean(RowTokens(t, y), 0, '\n');
  }

  /** The formatted text is the nine rows in three bands of three, an empty line between
      bands, and the empty rest after the final newline. */
  lemma FormattedLines(t: Grid)
    ensures var rows := FormattedRows(t);
            Split(Formatted(t), '\n') ==
              [rows[0], rows[1]] + [rows[2], ""] + ([rows[3], rows[4]] + [rows[5], ""] + ([rows[6], rows[7]] + [rows[8], ""]))
  {
    var rows := FormattedRows(t);
    forall y | 0 <= y < 9 ensures Clean(rows[y], '\n') {
      FormattedRowTokens(t, y);
    }
    BandedSplit(rows, 0);
    BandedLayoutOfNine(rows);
  }
}
