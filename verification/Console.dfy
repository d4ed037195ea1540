/** The VGA text console: 80 by 25 cells written in place, scrolled by copying them up a row. */
module Console {
  import opened CStrings
  import opened Terminal
  import opened Utf8

  const HEIGHT: nat := 25

  /** Cell `c` of row `r` of the terminal; rows not reached yet are blank. */
  ghost function TermCell(t: Term, r: nat, c: nat): int
    requires c < WIDTH
  {
    if r < |t.rows| then t.rows[r][c] else BLANK
  }

  /** The first terminal row on the screen. */
  ghost function Top(t: Term): nat {
    if |t.rows| <= HEIGHT then 0 else |t.rows| - HEIGHT
  }

  function NullText(): seq<Char> {
    Ascii("(null)")
  }

  /** The cells of the screen, row by row, show the last 25 rows of the terminal. */
  ghost predicate Picture(cells: seq<int>, t: Term) {
    |cells| == 80 * 25 && forall i :: 0 <= i < |cells| ==> cells[i] == TermCell(t, Top(t) + i / 80, i % 80)
  }

  /** The row of the screen the cursor is in. */
  ghost function CursorRow(t: Term): int
    requires t.rows != []
  {
    |t.rows| - 1 - Top(t)
  }

  function MovedUp(cells: seq<int>): seq<int>
    requires |cells| == 80 * 25
  {
    cells[80..] + seq(80, _ => 0x0F20)
  }

  lemma PictureAt(cells: seq<int>, t: Term, row: nat, column: nat)
    requires Picture(cells, t) && row < 25 && column < 80
    ensures cells[row * 80 + column] == TermCell(t, Top(t) + row, column)
  {
    var i := row * 80 + column;
    assert i / 80 == row && i % 80 == column;
  }

  /** Which cell of the terminal a cell of the screen shows after a character. */
  lemma CharacterAt(t: Term, c: Char, before: seq<int>, after: seq<int>, row: nat, column: nat)
    requires t.Valid() && c != 10 && c != 8 && row < 25 && column < 80
    requires Picture(before, t) && Picture(after, t.Put(c))
    ensures var scrolls := CursorRow(t) == 24 && t.x == 79;
            after[row * 80 + column] ==
              if scrolls && row == 24 then 0x0F20
              else
                var was := if scrolls then row + 1 else row;
                if was == CursorRow(t) && column == t.x then 0x0F00 + c else before[was * 80 + column]
  {
    var scrolls := CursorRow(t) == 24 && t.x == 79;
    PictureAt(after, t.Put(c), row, column);
    CharacterCell(t, c, Top(t.Put(c)) + row, column);
    if !(scrolls && row == 24) {
      PictureAt(before, t, if scrolls then row + 1 else row, column);
    }
  }

  lemma SameCell(row: nat, column: nat, y: nat, x: nat)
    requires column < 80 && x < 80
    ensures row * 80 + column == y * 80 + x <==> row == y && column == x
  {
  }

  /** The same by the number of the cell. */
  lemma CharacterAtCell(t: Term, c: Char, before: seq<int>, after: seq<int>, i: nat)
    requires t.Valid() && c != 10 && c != 8 && i < 80 * 25
    requires Picture(before, t) && Picture(after, t.Put(c))
    ensures var at := CursorRow(t) * 80 + t.x;
            && 0 <= at < 80 * 25
            && after[i] == if at < 80 * 25 - 1 then (if i == at then 0x0F00 + c else before[i])
                           else if i >= 80 * 24 then 0x0F20
                           else if i + 80 == at then 0x0F00 + c else before[i + 80]
  {
    var row, column := i / 80, i % 80;
    assert row * 80 + column == i;
    CharacterAt(t, c, before, after, row, column);
    SameCell(CursorRow(t), t.x, 24, 79);
    SameCell(row, column, CursorRow(t), t.x);
    SameCell(row + 1, column, CursorRow(t), t.x);
  }

  lemma StoredCell(cells: seq<int>, after: seq<int>, at: nat, v: int)
    requires |cells| == |after| == 80 * 25 && at < 80 * 25
    requires forall i :: 0 <= i < 80 * 25 ==> after[i] == if i == at then v else cells[i]
    ensures after == cells[at := v]
  {
  }

  lemma MovedCells(cells: seq<int>, after: seq<int>)
    requires |cells| == |after| == 80 * 25
    requires forall i :: 0 <= i < 80 * 25 ==> after[i] == if i >= 80 * 24 then 0x0F20 else cells[i + 80]
    ensures after == MovedUp(cells)
  {
  }

  /** What a character does to the cells, in numbers: it is stored at the cursor, white on black, and
      the picture moves up by a row if that was the last cell of the screen. */
  lemma CharacterInPicture(t: Term, c: Char, before: seq<int>, after: seq<int>)
    requires t.Valid() && c != 10 && c != 8
    requires Picture(before, t) && Picture(after, t.Put(c))
    ensures var at := CursorRow(t) * 80 + t.x;
            && 0 <= at < |before|
            && after == if at == 80 * 25 - 1 then MovedUp(before[at := 0x0F00 + c]) else before[at := 0x0F00 + c]
  {
    CharacterAtCell(t, c, before, after, 0);
    var at, v := CursorRow(t) * 80 + t.x, 0x0F00 + c;
    forall i: nat | i < 80 * 25
      ensures after[i] == if at < 80 * 25 - 1 then (if i == at then v else before[i])
                          else if i >= 80 * 24 then 0x0F20 else before[at := v][i + 80]
    {
      CharacterAtCell(t, c, before, after, i);
    }
    if at < 80 * 25 - 1 {
      StoredCell(before, after, at, v);
    } else {
      MovedCells(before[at := v], after);
    }
  }

  lemma CharacterCell(t: Term, c: Char, row: nat, column: nat)
    requires t.Valid() && c != 10 && c != 8 && column < 80
    ensures TermCell(t.Put(c), row, column) ==
              if row == |t.rows| - 1 && column == t.x then 0x0F00 + c else TermCell(t, row, column)
  {
  }

  /** A newline leaves the cells alone, unless the cursor is in the last row: then the picture moves
      up. */
  lemma NewlineInPicture(t: Term, before: seq<int>, after: seq<int>)
    requires t.Valid() && Picture(before, t) && Picture(after, t.Put(10))
    ensures after == if CursorRow(t) == 24 then MovedUp(before) else before
  {
    forall i | 0 <= i < |after|
      ensures after[i] == if CursorRow(t) < 24 then before[i] else if i < 80 * 24 then before[i + 80] else 0x0F20
    {
      NewlineAt(t, before, after, i / 80, i % 80);
    }
  }

  lemma NewlineAt(t: Term, before: seq<int>, after: seq<int>, row: nat, column: nat)
    requires t.Valid() && Picture(before, t) && Picture(after, t.Put(10)) && row < 25 && column < 80
    ensures after[row * 80 + column] ==
              if CursorRow(t) < 24 then before[row * 80 + column]
              else if row < 24 then before[(row + 1) * 80 + column] else 0x0F20
  {
    PictureAt(after, t.Put(10), row, column);
    ControlCell(t, 10, Top(t.Put(10)) + row, column);
    if CursorRow(t) < 24 {
      PictureAt(before, t, row, column);
    } else if row < 24 {
      PictureAt(before, t, row + 1, column);
    }
  }

  /** A backspace blanks the cell to the left of the cursor, unless it is the first of its row. */
  lemma BackspaceInPicture(t: Term, before: seq<int>, after: seq<int>)
    requires t.Valid() && Picture(before, t) && Picture(after, t.Put(8))
    ensures after == if t.x == 0 then before else before[CursorRow(t) * 80 + t.x - 1 := 0x0F20]
  {
    if t.x > 0 {
      forall i | 0 <= i < |after|
        ensures after[i] == before[CursorRow(t) * 80 + t.x - 1 := 0x0F20][i]
      {
        ControlCell(t, 8, Top(t) + i / 80, i % 80);
      }
    }
  }

  lemma ControlCell(t: Term, c: Char, row: nat, column: nat)
    requires t.Valid() && (c == 10 || c == 8) && column < 80
    ensures TermCell(t.Put(c), row, column) ==
              if c == 8 && t.x > 0 && row == |t.rows| - 1 && column == t.x - 1 then 0x0F20
              else TermCell(t, row, column)
  {
  }

  lemma NullTextInNumbers()
    ensures NullText() == [40, 110, 117, 108, 108, 41]
  {
    var s := "(null)";
    assert |NullText()| == |s| && forall i :: 0 <= i < |s| ==> NullText()[i] == s[i] as int;
  }

  lemma Regroup(before: seq<Char>, c: Char, rest: seq<Char>)
    ensures before + ([c] + rest) == before + [c] + rest
  {
  }

  class Console {
    const vga: array<int>
    var cursorX: nat
    var cursorY: nat
    ghost var term: Term

    /** The screen shows the rows of `t` from `top` on. */
    ghost predicate Shows(t: Term, top: nat)
      reads vga
    {
      && vga.Length == WIDTH * HEIGHT
      && forall i :: 0 <= i < vga.Length ==> vga[i] == TermCell(t, top + i / WIDTH, i % WIDTH)
    }

    /** The screen is the last 25 rows of the terminal, and the cursors agree. */
    ghost predicate Valid()
      reads this, vga
    {
      && term.Valid()
      && Shows(term, Top(term))
      && cursorX == term.x < WIDTH
      && cursorY + Top(term) == |term.rows| - 1
      && cursorY < HEIGHT
    }

    constructor (memory: array<int>)
      requires memory.Length == WIDTH * HEIGHT
      modifies memory
      ensures vga == memory && Valid() && term == CLEARED
    {
      vga := memory;
      cursorX, cursorY := 0, 0;
      term := CLEARED;
      new;
      VgaClear();
    }

    method VgaClear()
      requires vga.Length == WIDTH * HEIGHT
      modifies this, vga
      ensures Valid() && term == CLEARED
      ensures cursorX == cursorY == 0 && forall i :: 0 <= i < 80 * 25 ==> vga[i] == 0x0F20
    {
      for i := 0 to WIDTH * HEIGHT
        invariant forall k :: 0 <= k < i ==> vga[k] == BLANK
      {
        vga[i] := BLANK;
      }
      cursorX := 0;
      cursorY := 0;
      term := CLEARED;
    }

    /** Moves the picture up by one row if the cursor has left it at the bottom. */
    method ScrollIfNeeded(ghost top: nat)
      requires term.Valid() && Shows(term, top)
      requires cursorY <= HEIGHT && cursorY + top == |term.rows| - 1
      requires cursorY == HEIGHT ==> term.LastRow() == BlankRow()
      modifies `cursorY, vga
      ensures cursorY < HEIGHT
      ensures cursorY == if old(cursorY) < HEIGHT then old(cursorY) else HEIGHT - 1
      ensures Shows(term, if old(cursorY) < HEIGHT then top else top + 1)
    {
      if cursorY < HEIGHT {
        return;
      }
      for i := 0 to (HEIGHT - 1) * WIDTH
        invariant forall k :: 0 <= k < i ==> vga[k] == TermCell(term, top + 1 + k / WIDTH, k % WIDTH)
        invariant forall k :: i <= k < vga.Length ==> vga[k] == TermCell(term, top + k / WIDTH, k % WIDTH)
      {
        vga[i] := vga[i + WIDTH];
      }
      for i := (HEIGHT - 1) * WIDTH to HEIGHT * WIDTH
        invariant forall k :: 0 <= k < i ==> vga[k] == TermCell(term, top + 1 + k / WIDTH, k % WIDTH)
      {
        vga[i] := BLANK;
      }
      cursorY := HEIGHT - 1;
    }

    /** One cell of the cursor's row. */
    method WriteCell(ghost top: nat, cell: int)
      requires term.rows != [] && Shows(term, top)
      requires cursorX < WIDTH && cursorY < HEIGHT && cursorY + top == |term.rows| - 1
      modifies vga, `term
      ensures term == old(term).SetCell(cursorX, cell) && Shows(term, top)
    {
      vga[cursorY * WIDTH + cursorX] := cell;
      term := term.SetCell(cursorX, cell);
    }

    /** A valid console in numbers. */
    lemma ValidIsPicture()
      requires Valid()
      ensures Picture(vga[..], term) && cursorY == CursorRow(term) && cursorX == term.x
      ensures term.rows != []
    {
    }

    /** One character: the terminal is fed it, and what that does to cells and cursor in numbers. */
    method VgaPutChar(c: Char)
      requires Valid()
      modifies this, vga
      ensures Valid() && term == old(term).Put(c)
      ensures c != 10 && c != 8 ==>
                var at := old(cursorY * 80 + cursorX);
                && 0 <= at < 80 * 25
                && vga[..] == (if at == 80 * 25 - 1 then MovedUp(old(vga[..])[at := 0x0F00 + c])
                               else old(vga[..])[at := 0x0F00 + c])
                && cursorY * 80 + cursorX == if at == 80 * 25 - 1 then 80 * 24 else at + 1
      ensures c == 10 ==>
                && vga[..] == (if old(cursorY) == 24 then MovedUp(old(vga[..])) else old(vga[..]))
                && cursorX == 0 && cursorY == if old(cursorY) == 24 then 24 else old(cursorY) + 1
      ensures c == 8 ==>
                && vga[..] == (if old(cursorX) == 0 then old(vga[..])
                               else old(vga[..])[old(cursorY * 80 + cursorX) - 1 := 0x0F20])
                && cursorY == old(cursorY) && cursorX == if old(cursorX) == 0 then 0 else old(cursorX) - 1
    {
      ghost var before, t := vga[..], term;
      ValidIsPicture();
      PutInPlace(c);
      ValidIsPicture();
      if c == 10 {
        NewlineInPicture(t, before, vga[..]);
      } else if c == 8 {
        BackspaceInPicture(t, before, vga[..]);
      } else {
        CharacterInPicture(t, c, before, vga[..]);
      }
    }

    method PutInPlace(c: Char)
      requires Valid()
      modifies this, vga
      ensures Valid() && term == old(term).Put(c)
    {
      ghost var top := Top(term);
      PutKeepsValid(term, c);
      if c == NEWLINE {
        cursorX := 0;
        cursorY := cursorY + 1;
      } else if c == BACKSPACE {
        if cursorX > 0 {
          cursorX := cursorX - 1;
          WriteCell(top, BLANK);
        }
      } else {
        WriteCell(top, Cell(c));
        cursorX := cursorX + 1;
      }
      if cursorX >= WIDTH {
        cursorX := 0;
        cursorY := cursorY + 1;
      }
      term := old(term).Put(c);
      ScrollIfNeeded(top);
    }

    /** One more character of a text that is being written. */
    method PutNext(ghost before: Term, ghost printed: seq<Char>, c: Char)
      requires Valid() && before.Valid() && term == Feed(before, printed)
      modifies this, vga
      ensures Valid() && term == Feed(before, printed + [c])
    {
      FeedOne(before, printed, c);
      VgaPutChar(c);
    }

    method VgaWrite(text: Pointer)
      requires Valid()
      requires StringOrNull(text)
      modifies this, vga
      ensures Valid()
      ensures term == Feed(old(term), if text.Null? then NullText() else Text(text.buffer))
    {
      WriteBuffer(if text.Null? then Buffer(NullText()) else text.buffer);
    }

    method WriteBuffer(buffer: seq<Char>)
      requires Valid() && Terminated(buffer)
      modifies this, vga
      ensures Valid() && term == Feed(old(term), Text(buffer))
    {
      ghost var all := Text(buffer);
      var i := 0;
      while buffer[i] != NUL
        invariant i <= |all|
        invariant Valid() && term == Feed(old(term), all[..i])
        decreases |all| - i
      {
        assert all[..i + 1] == all[..i] + [buffer[i]];
        PutNext(old(term), all[..i], buffer[i]);
        i := i + 1;
      }
      assert all[..i] == all;
    }

    /** For every buffer whose decoding comes to a NUL; `Utf8.DecodesEncoded` says what that is for
        well-formed text. */
    method VgaWriteUtf8(text: Pointer)
      requires Valid()
      requires text.To? ==> Terminates(text.buffer, 0)
      modifies this, vga
      ensures Valid()
      ensures term == Feed(old(term), if text.Null? then NullText() else Decoded(text.buffer, 0))
    {
      if text.Null? {
        VgaWrite(text);
        return;
      }
      WriteDecoded(text.buffer);
    }

    method WriteDecoded(buffer: seq<Char>)
      requires Valid() && Terminates(buffer, 0)
      modifies this, vga
      ensures Valid() && term == Feed(old(term), Decoded(buffer, 0))
    {
      var i := 0;
      ghost var before, all, printed := term, Decoded(buffer, 0), [];
      while buffer[i] != NUL
        invariant Terminates(buffer, i)
        invariant all == printed + Decoded(buffer, i)
        invariant Valid() && term == Feed(before, printed)
        decreases |buffer| - i
      {
        var byte := buffer[i];
        StepOver(buffer, i);
        PutNext(before, printed, if byte < 0x80 then byte else QUESTION_MARK);
        Regroup(printed, Shown(byte), Decoded(buffer, i + 1 + Skip(byte)));
        printed := printed + [Shown(byte)];
        i := i + 1 + Skip(byte);
      }
      assert printed == all;
    }
  }
}
