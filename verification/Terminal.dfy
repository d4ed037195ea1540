/** The terminal the VGA console imitates: rows of 80 cells that never scroll away, written at a
    cursor that is always in the last row. */
module Terminal {
  import opened CStrings

  const WIDTH: nat := 80
  const BACKSPACE: Char := 8
  const NEWLINE: Char := 10
  const QUESTION_MARK: Char := 63
  const COLOR: int := 0x0F

  /** A screen cell: the colour in the high byte, the character in the low one. */
  function Cell(c: Char): int {
    COLOR * 0x100 + c
  }

  const BLANK: int := Cell(SPACE)

  type Row = r: seq<int> | |r| == WIDTH witness seq(WIDTH, _ => 0)

  function BlankRow(): Row {
    seq(WIDTH, _ => BLANK)
  }

  datatype Term = Term(rows: seq<Row>, x: nat) {

    /** Nothing has been written at or behind the cursor. */
    ghost predicate Valid() {
      && rows != []
      && x < WIDTH
      && forall i :: x <= i < WIDTH ==> LastRow()[i] == BLANK
    }

    function LastRow(): Row
      requires rows != []
    {
      rows[|rows| - 1]
    }

    function SetCell(i: nat, cell: int): Term
      requires rows != [] && i < WIDTH
    {
      this.(rows := rows[|rows| - 1 := LastRow()[i := cell]])
    }

    function NewRow(): Term {
      Term(rows + [BlankRow()], 0)
    }

    function Put(c: Char): Term
      requires rows != [] && x < WIDTH
    {
      if c == NEWLINE then NewRow()
      else if c == BACKSPACE then
        if x > 0 then SetCell(x - 1, BLANK).(x := x - 1) else this
      else if x + 1 == WIDTH then SetCell(x, Cell(c)).NewRow()
      else SetCell(x, Cell(c)).(x := x + 1)
    }
  }

  const CLEARED: Term := Term([BlankRow()], 0)

  lemma PutKeepsValid(t: Term, c: Char)
    requires t.Valid()
    ensures t.Put(c).Valid() && |t.rows| <= |t.Put(c).rows| <= |t.rows| + 1
  {
  }

  ghost function Feed(t: Term, text: seq<Char>): (r: Term)
    requires t.Valid()
    ensures r.Valid() && |t.rows| <= |r.rows|
    decreases |text|
  {
    if text == [] then t
    else
      PutKeepsValid(t, text[0]);
      Feed(t.Put(text[0]), text[1..])
  }

  lemma {:induction false} FeedConcat(t: Term, a: seq<Char>, b: seq<Char>)
    requires t.Valid()
    ensures Feed(t, a + b) == Feed(Feed(t, a), b)
    decreases |a|
  {
    if a == [] {
      assert a + b == b;
    } else {
      PutKeepsValid(t, a[0]);
      FeedConcat(t.Put(a[0]), a[1..], b);
      assert (a + b)[1..] == a[1..] + b;
    }
  }

  lemma FeedOne(t: Term, a: seq<Char>, c: Char)
    requires t.Valid()
    ensures Feed(t, a + [c]) == Feed(t, a).Put(c)
  {
    FeedConcat(t, a, [c]);
    assert [c][1..] == [];
    PutKeepsValid(Feed(t, a), c);
  }

  // ---------------------------------------------------------------- where text ends up

  predicate Printable(text: seq<Char>) {
    NEWLINE !in text && BACKSPACE !in text
  }

  lemma PutPrintable(t: Term, c: Char)
    requires t.Valid() && c != NEWLINE && c != BACKSPACE
    ensures var r := t.Put(c);
            && |r.rows| == |t.rows| + (t.x + 1) / WIDTH && r.x == (t.x + 1) % WIDTH
            && r.rows[|t.rows| - 1][t.x] == Cell(c)
  {
  }

  /** All other cells stay. */
  lemma PutKeepsCell(t: Term, c: Char, row: nat, column: nat)
    requires t.Valid() && c != NEWLINE && c != BACKSPACE
    requires row < |t.rows| && column < WIDTH && !(row == |t.rows| - 1 && column == t.x)
    ensures row < |t.Put(c).rows| && t.Put(c).rows[row][column] == t.rows[row][column]
  {
  }

  lemma {:induction false} TextMoves(t: Term, text: seq<Char>)
    requires t.Valid() && Printable(text)
    ensures var r := Feed(t, text);
            |r.rows| == |t.rows| + (t.x + |text|) / WIDTH && r.x == (t.x + |text|) % WIDTH
  {
    if text != [] {
      var n := |text| - 1;
      TextMoves(t, text[..n]);
      assert text == text[..n] + [text[n]];
      FeedOne(t, text[..n], text[n]);
      PutPrintable(Feed(t, text[..n]), text[n]);
    }
  }

  /** A cell before the cursor is not written to again. */
  lemma {:induction false} TextKeepsCell(t: Term, text: seq<Char>, row: nat, column: nat)
    requires t.Valid() && Printable(text) && column < WIDTH && WIDTH * row + column < WIDTH * (|t.rows| - 1) + t.x
    ensures row < |Feed(t, text).rows| && Feed(t, text).rows[row][column] == t.rows[row][column]
  {
    if text != [] {
      var n := |text| - 1;
      TextMoves(t, text[..n]);
      TextKeepsCell(t, text[..n], row, column);
      assert text == text[..n] + [text[n]];
      FeedOne(t, text[..n], text[n]);
      PutKeepsCell(Feed(t, text[..n]), text[n], row, column);
    }
  }

  lemma CutBehind(text: seq<Char>, k: nat)
    requires k < |text|
    ensures text == text[..k] + [text[k]] + text[k + 1..]
  {
  }

  lemma {:induction false} CharacterStands(t: Term, text: seq<Char>, k: nat)
    requires t.Valid() && Printable(text) && k < |text|
    ensures var row := |t.rows| - 1 + (t.x + k) / WIDTH;
            row < |Feed(t, text).rows| && Feed(t, text).rows[row][(t.x + k) % WIDTH] == Cell(text[k])
  {
    var head, tail := text[..k], text[k + 1..];
    var before, after := Feed(t, head), Feed(t, head + [text[k]]);
    CutBehind(text, k);
    TextMoves(t, head);
    FeedOne(t, head, text[k]);
    PutPrintable(before, text[k]);
    FeedConcat(t, head + [text[k]], tail);
    TextKeepsCell(after, tail, |before.rows| - 1, before.x);
  }

  /** Text without control characters, from column x on: character k stands in row (x + k) / 80 and
      column (x + k) % 80 behind what was there before, which stays. */
  lemma {:induction false} TextFillsRows(t: Term, text: seq<Char>)
    requires t.Valid() && Printable(text)
    ensures var r, base := Feed(t, text), |t.rows| - 1;
            && |r.rows| == base + 1 + (t.x + |text|) / WIDTH && r.x == (t.x + |text|) % WIDTH
            && (forall i, j :: 0 <= i <= base && 0 <= j < WIDTH && (i < base || j < t.x) ==> r.rows[i][j] == t.rows[i][j])
            && forall k :: 0 <= k < |text| ==> r.rows[base + (t.x + k) / WIDTH][(t.x + k) % WIDTH] == Cell(text[k])
  {
    var r, base := Feed(t, text), |t.rows| - 1;
    TextMoves(t, text);
    forall i, j | 0 <= i <= base && 0 <= j < WIDTH && (i < base || j < t.x)
      ensures r.rows[i][j] == t.rows[i][j]
    {
      TextKeepsCell(t, text, i, j);
    }
    forall k | 0 <= k < |text|
      ensures r.rows[base + (t.x + k) / WIDTH][(t.x + k) % WIDTH] == Cell(text[k])
    {
      CharacterStands(t, text, k);
    }
  }

  /** A cell holds the character in its low byte and the colour, white on black, in its high one. */
  lemma CellsInNumbers(c: Char)
    ensures Cell(c) % 0x100 == c && Cell(c) / 0x100 == 0x0F
    ensures BLANK == 0x0F20
  {
  }

  /** What the machine finds where text was printed: character k in the low byte of its cell, 80 cells
      to a row, and the colour in the high byte. */
  lemma TextInNumbers(t: Term, text: seq<Char>, k: nat)
    requires t.Valid() && Printable(text) && k < |text|
    ensures var row, column := |t.rows| - 1 + (t.x + k) / 80, (t.x + k) % 80;
            && row < |Feed(t, text).rows|
            && Feed(t, text).rows[row][column] % 0x100 == text[k]
            && Feed(t, text).rows[row][column] / 0x100 == 0x0F
  {
    CharacterStands(t, text, k);
    CellsInNumbers(text[k]);
  }

  /** Cells at and behind the cursor hold white blanks: on a cleared terminal all 80, and wherever a
      character was rubbed out. */
  lemma BlanksInNumbers(t: Term, i: nat)
    requires t.Valid() && t.x <= i < 80
    ensures t.rows[|t.rows| - 1][i] == 0x0F20
    ensures CLEARED.Valid() && |CLEARED.rows| == 1 && CLEARED.x == 0
    ensures forall j :: 0 <= j < 80 ==> CLEARED.rows[0][j] == 0x0F20
  {
    assert t.LastRow()[i] == BLANK;
  }

  lemma {:induction false} RowsAboveStay(above: seq<Row>, t: Term, text: seq<Char>)
    requires t.Valid()
    ensures Term(above + t.rows, t.x).Valid()
    ensures Feed(Term(above + t.rows, t.x), text) == Term(above + Feed(t, text).rows, Feed(t, text).x)
    decreases |text|
  {
    var u := Term(above + t.rows, t.x);
    assert u.LastRow() == t.LastRow();
    if text != [] {
      PutKeepsValid(t, text[0]);
      PutAbove(above, t, text[0]);
      RowsAboveStay(above, t.Put(text[0]), text[1..]);
    }
  }

  lemma PutAbove(above: seq<Row>, t: Term, c: Char)
    requires t.Valid()
    ensures Term(above + t.rows, t.x).Put(c) == Term(above + t.Put(c).rows, t.Put(c).x)
  {
    var u := Term(above + t.rows, t.x);
    assert u.LastRow() == t.LastRow();
    forall i: nat, cell | i < WIDTH
      ensures u.SetCell(i, cell).rows == above + t.SetCell(i, cell).rows
    {
    }
  }

  /** After a newline the rest is laid out as on a cleared screen, below rows that no longer change. */
  lemma NewlineStartsAfresh(t: Term, text: seq<Char>)
    requires t.Valid()
    ensures var rest := Feed(CLEARED, text);
            Feed(t, [NEWLINE] + text) == Term(t.rows + rest.rows, rest.x)
  {
    assert ([NEWLINE] + text)[1..] == text;
    assert t.Put(NEWLINE) == Term(t.rows + CLEARED.rows, 0);
    RowsAboveStay(t.rows, CLEARED, text);
  }

  function Backspaces(n: nat): seq<Char> {
    seq(n, _ => BACKSPACE)
  }

  /** Backspaces move the cursor to the left, no further than the start of the row. */
  lemma {:induction false} BackspacesMove(t: Term, n: nat)
    requires t.Valid()
    ensures var r := Feed(t, Backspaces(n));
            |r.rows| == |t.rows| && r.x == if n <= t.x then t.x - n else 0
    decreases n
  {
    if n > 0 {
      assert Backspaces(n)[1..] == Backspaces(n - 1);
      PutKeepsValid(t, BACKSPACE);
      BackspacesMove(t.Put(BACKSPACE), n - 1);
    }
  }

  /** One backspace takes back one character that did not end its row. */
  lemma PutBack(t: Term, c: Char)
    requires t.Valid() && c != NEWLINE && c != BACKSPACE && t.x + 1 < WIDTH
    ensures t.Put(c).Put(BACKSPACE) == t
  {
    var r := t.Put(c).Put(BACKSPACE);
    assert r.LastRow() == t.LastRow();
    assert r.rows == t.rows;
  }

  /** Where the cursor is, counted in cells from the first row. */
  function Position(t: Term): int {
    WIDTH * |t.rows| + t.x
  }

  lemma {:induction false} TextAdvances(t: Term, text: seq<Char>)
    requires t.Valid() && Printable(text)
    ensures Position(Feed(t, text)) == Position(t) + |text| && Feed(t, text).x == (t.x + |text|) % WIDTH
  {
    TextMoves(t, text);
  }

  /** Dropping characters at the end in two goes; all of them leave nothing. */
  lemma DropLast(text: seq<Char>, n: nat, k: nat)
    requires k <= n <= |text|
    ensures text[..|text| - k][..|text| - n] == text[..|text| - n]
    ensures n == |text| ==> text[..|text| - n] == []
  {
  }

  /** The first of n backspaces takes back the last character printed. */
  lemma {:induction false} LastTakenBack(t: Term, line: seq<Char>, c: Char, n: nat)
    requires t.Valid() && Printable(line + [c]) && 0 < n <= (t.x + |line| + 1) % WIDTH
    ensures Feed(Feed(t, line + [c]), Backspaces(n)) == Feed(Feed(t, line), Backspaces(n - 1))
    ensures Printable(line) && n - 1 <= (t.x + |line|) % WIDTH
  {
    PrefixIsPrintable(line, c);
    TextMoves(t, line);
    FeedOne(t, line, c);
    FirstBackspace(Feed(t, line), c, n);
  }

  lemma PrefixIsPrintable(line: seq<Char>, c: Char)
    requires Printable(line + [c])
    ensures Printable(line) && c != NEWLINE && c != BACKSPACE
  {
    assert (line + [c])[|line|] == c;
  }

  lemma {:induction false} FirstBackspace(t: Term, c: Char, n: nat)
    requires t.Valid() && c != NEWLINE && c != BACKSPACE && t.x + 1 < WIDTH && n > 0
    ensures t.Put(c).Valid() && Feed(t.Put(c), Backspaces(n)) == Feed(t, Backspaces(n - 1))
  {
    PutKeepsValid(t, c);
    PutBack(t, c);
    assert Backspaces(n)[1..] == Backspaces(n - 1);
  }

  lemma {:induction false} BackspacesTakeBack(t: Term, line: seq<Char>, n: nat)
    requires t.Valid() && Printable(line) && n <= |line| && n <= (t.x + |line|) % WIDTH
    ensures Feed(Feed(t, line), Backspaces(n)) == Feed(t, line[..|line| - n])
    decreases n
  {
    if n == 0 {
      assert line[..|line|] == line;
    } else {
      var rest := line[..|line| - 1];
      assert line == rest + [line[|line| - 1]];
      LastTakenBack(t, rest, line[|line| - 1], n);
      DropLast(line, n, 1);
      BackspacesTakeBack(t, rest, n - 1);
    }
  }

  /** Erasing the last n characters of a printed line and printing another text instead shows what is
      left of the line with that text behind it, exactly when the n characters stand in the row of the
      cursor: backspace does not cross rows. */
  lemma {:induction false} RewriteShowsIff(t: Term, line: seq<Char>, n: nat, text: seq<Char>)
    requires t.Valid() && Printable(line) && n <= |line| && Printable(text)
    ensures Feed(Feed(t, line), Backspaces(n) + text) == Feed(t, line[..|line| - n] + text)
            <==> n <= (t.x + |line|) % WIDTH
  {
    var shown, left := Feed(t, line), line[..|line| - n];
    FeedConcat(shown, Backspaces(n), text);
    FeedConcat(t, left, text);
    if n <= (t.x + |line|) % WIDTH {
      BackspacesTakeBack(t, line, n);
    } else {
      TextAdvances(t, line);
      TextAdvances(t, left);
      BackspacesMove(shown, n);
      TextAdvances(Feed(shown, Backspaces(n)), text);
      TextAdvances(Feed(t, left), text);
    }
  }

  /** Backspacing n times over a printed line shows the line without its last n characters exactly when
      these stand in the row of the cursor. */
  lemma {:induction false} BackspacesIff(t: Term, line: seq<Char>, n: nat)
    requires t.Valid() && Printable(line) && n <= |line|
    ensures Feed(Feed(t, line), Backspaces(n)) == Feed(t, line[..|line| - n]) <==> n <= (t.x + |line|) % WIDTH
  {
    RewriteShowsIff(t, line, n, []);
    assert Backspaces(n) + [] == Backspaces(n);
    assert line[..|line| - n] + [] == line[..|line| - n];
  }

  /** Backspacing over all of a printed text takes the terminal back exactly when the text did not
      reach the end of its row. */
  lemma {:induction false} EraseRestoresIff(t: Term, text: seq<Char>)
    requires t.Valid() && Printable(text)
    ensures Feed(Feed(t, text), Backspaces(|text|)) == t <==> t.x + |text| < WIDTH
  {
    WholeTextInRow(t.x, |text|);
    DropLast(text, |text|, |text|);
    BackspacesIff(t, text, |text|);
  }

  lemma WholeTextInRow(x: nat, n: nat)
    requires x < WIDTH
    ensures n <= (x + n) % WIDTH <==> x + n < WIDTH
  {
  }

  /** The shortest line that shows it: 80 characters on a cleared screen fill the row, and no number of
      backspaces brings the cursor back to it. */
  lemma FullRowIsNotErased(c: Char)
    requires c != NEWLINE && c != BACKSPACE
    ensures var line := seq(WIDTH, _ => c);
            && Feed(Feed(CLEARED, line), Backspaces(WIDTH)) != CLEARED
            && forall n :: |Feed(Feed(CLEARED, line), Backspaces(n)).rows| == 2
  {
    var line := seq(WIDTH, _ => c);
    EraseRestoresIff(CLEARED, line);
    TextMoves(CLEARED, line);
    forall n: nat
      ensures |Feed(Feed(CLEARED, line), Backspaces(n)).rows| == 2
    {
      BackspacesMove(Feed(CLEARED, line), n);
    }
  }
}
