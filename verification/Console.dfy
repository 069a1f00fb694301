/** The 25x80 text console: video memory, cursor and a bounded scrollback, against the unbounded terminal. */
module Console {
  import opened Machine
  import opened Terminal

  const HISTORY := 100         // SCROLLBACK_LINES

  // ----- the screen as a window on the rows

  predicate Rectangular(rows: seq<seq<int>>) {
    forall r :: 0 <= r < |rows| ==> |rows[r]| == COLS
  }

  /** The cells are those of the 25 rows from `top` on. */
  predicate Pictured(cells: seq<int>, rows: seq<seq<int>>, top: int)
    requires Rectangular(rows) && |cells| == ROWS * COLS && 0 <= top && top + ROWS <= |rows|
  {
    forall i :: 0 <= i < ROWS * COLS ==> cells[i] == rows[top + i / COLS][i % COLS]
  }

  /** Row and column of a cell, of the one below it, and of one in row `y`. */
  lemma CellRow(i: int)
    requires 0 <= i < ROWS * COLS
    ensures 0 <= i / COLS < ROWS && 0 <= i % COLS < COLS
    ensures (i + COLS) / COLS == i / COLS + 1 && (i + COLS) % COLS == i % COLS
    ensures i >= (ROWS - 1) * COLS <==> i / COLS == ROWS - 1
  {
  }

  lemma CellOf(y: int, x: int, i: int)
    requires 0 <= y < ROWS && 0 <= x < COLS && 0 <= i < ROWS * COLS
    ensures 0 <= y * COLS + x < ROWS * COLS
    ensures i == y * COLS + x <==> i / COLS == y && i % COLS == x
  {
  }

  /** Rows moved up by one and a new row at the bottom picture the window one row further down. */
  lemma ShiftPictured(cells: seq<int>, cells': seq<int>, rows: seq<seq<int>>, row: seq<int>, top: int)
    requires Rectangular(rows) && |row| == COLS && 0 <= top && |rows| == top + ROWS
    requires |cells| == |cells'| == ROWS * COLS && Pictured(cells, rows, top)
    requires forall i :: 0 <= i < (ROWS - 1) * COLS ==> cells'[i] == cells[i + COLS]
    requires forall i :: (ROWS - 1) * COLS <= i < ROWS * COLS ==> cells'[i] == row[i % COLS]
    ensures Rectangular(rows + [row]) && Pictured(cells', rows + [row], top + 1)
  {
    forall i | 0 <= i < ROWS * COLS ensures cells'[i] == (rows + [row])[top + 1 + i / COLS][i % COLS] {
      CellRow(i);
    }
  }

  lemma WritePictured(cells: seq<int>, rows: seq<seq<int>>, top: int, y: int, x: int, cell: int)
    requires Rectangular(rows) && |cells| == ROWS * COLS && 0 <= top && |rows| == top + ROWS
    requires 0 <= y < ROWS && 0 <= x < COLS && Pictured(cells, rows, top)
    ensures 0 <= y * COLS + x < |cells|
    ensures var rows' := rows[top + y := rows[top + y][x := cell]];
            Rectangular(rows') && Pictured(cells[y * COLS + x := cell], rows', top)
  {
    CellOf(y, x, 0);
    var rows' := rows[top + y := rows[top + y][x := cell]];
    forall i | 0 <= i < ROWS * COLS ensures cells[y * COLS + x := cell][i] == rows'[top + i / COLS][i % COLS] {
      CellOf(y, x, i);
      CellRow(i);
    }
  }

  lemma TopRow(cells: seq<int>, rows: seq<seq<int>>, top: int, c: int)
    requires Rectangular(rows) && |cells| == ROWS * COLS && 0 <= top && top + ROWS <= |rows|
    requires Pictured(cells, rows, top) && 0 <= c < COLS
    ensures cells[c] == rows[top][c]
  {
    assert c / COLS == 0 && c % COLS == c;
  }

  class Console {
    const video: array<int>        // 25 * 80 cells
    const scrollback: array2<int>  // HISTORY rows of 80 characters
    var cursorX: Byte
    var cursorY: Byte
    var attribute: Byte
    var scrollbackCount: int
    ghost var term: Term

    /** Rows of the terminal that have left the screen. */
    ghost function Scrolled(): int
      reads this
    {
      |term.rows| - ROWS
    }

    /** The first `count` rows of the scrollback are the characters of the first `count` of `rows`. */
    ghost predicate Saved(rows: seq<seq<int>>, count: int)
      requires scrollback.Length0 == HISTORY && scrollback.Length1 == COLS
      requires Rectangular(rows) && count <= HISTORY && count <= |rows|
      reads scrollback
    {
      forall r, c :: 0 <= r < count && 0 <= c < COLS ==> scrollback[r, c] == rows[r][c] % 256
    }

    lemma SavedMore(rows: seq<seq<int>>, row: seq<int>, count: int)
      requires scrollback.Length0 == HISTORY && scrollback.Length1 == COLS
      requires Rectangular(rows) && |row| == COLS && count <= HISTORY && count <= |rows| && Saved(rows, count)
      ensures Rectangular(rows + [row]) && Saved(rows + [row], count)
    {
    }

    /**
     The screen is the last 25 rows of the terminal, the scrollback is the characters of its first
     rows, as many as fit among those that have left the screen.  The cursor may stand below the
     last row, which is what `scroll` repairs.
     */
    ghost predicate Shows()
      reads this, video, scrollback
    {
      && video.Length == ROWS * COLS && scrollback.Length0 == HISTORY && scrollback.Length1 == COLS
      && Scrolled() >= 0 && Rectangular(term.rows) && Pictured(video[..], term.rows, Scrolled())
      && scrollbackCount == (if Scrolled() <= HISTORY then Scrolled() else HISTORY)
      && Saved(term.rows, scrollbackCount)
      && cursorX == term.x && cursorY == term.y - Scrolled() && 0 <= cursorX < COLS && 0 <= cursorY <= ROWS
    }

    ghost predicate Valid()
      reads this, video, scrollback
    {
      Shows() && cursorY < ROWS
    }

    constructor (video: array<int>, scrollback: array2<int>)
      requires video.Length == ROWS * COLS && scrollback.Length0 == HISTORY && scrollback.Length1 == COLS
      modifies video
      ensures this.video == video && this.scrollback == scrollback
      ensures Valid() && attribute == 0x0F && term == Blank(0x0F)
    {
      this.video := video;
      this.scrollback := scrollback;
      attribute := 0x0F;
      new;
      ClearScreen();
    }

    method ClearScreen()
      requires video.Length == ROWS * COLS && scrollback.Length0 == HISTORY && scrollback.Length1 == COLS
      modifies this`cursorX, this`cursorY, this`scrollbackCount, this`term, video
      ensures Valid() && term == Blank(attribute)
    {
      for i := 0 to COLS * ROWS
        invariant forall j :: 0 <= j < i ==> video[j] == Cell(attribute, SPACE)
      {
        video[i] := Cell(attribute, SPACE);
      }
      cursorX := 0;
      cursorY := 0;
      scrollbackCount := 0;
      term := Blank(attribute);
    }

    /** Copies the characters of the top row, unless the scrollback is full. */
    method SaveLineToScrollback()
      requires video.Length == ROWS * COLS && scrollback.Length0 == HISTORY && scrollback.Length1 == COLS
      requires 0 <= scrollbackCount <= HISTORY
      modifies this`scrollbackCount, scrollback
      ensures scrollbackCount == if old(scrollbackCount) < 100 then old(scrollbackCount) + 1 else 100
      ensures forall r, c :: 0 <= r < old(scrollbackCount) && 0 <= c < COLS ==>
                scrollback[r, c] == old(scrollback[r, c])
      ensures forall r, c :: old(scrollbackCount) <= r < scrollbackCount && 0 <= c < COLS ==>
                scrollback[r, c] == video[c] % 256
    {
      if scrollbackCount < HISTORY {
        for i := 0 to COLS
          invariant scrollbackCount == old(scrollbackCount)
          invariant forall c :: 0 <= c < i ==> scrollback[scrollbackCount, c] == video[c] % 256
          invariant forall r, c :: 0 <= r < scrollbackCount && 0 <= c < COLS ==>
                      scrollback[r, c] == old(scrollback[r, c])
        {
          scrollback[scrollbackCount, i] := video[i] % 256;
        }
        scrollbackCount := scrollbackCount + 1;
      }
    }

    /** Moves every row up by one and blanks the last. */
    method ShiftUp()
      requires video.Length == ROWS * COLS
      modifies video
      ensures forall i :: 0 <= i < (ROWS - 1) * COLS ==> video[i] == old(video[i + COLS])
      ensures forall i :: (ROWS - 1) * COLS <= i < ROWS * COLS ==> video[i] == Cell(attribute, SPACE)
    {
      for i := 0 to (ROWS - 1) * COLS
        invariant forall j :: 0 <= j < i ==> video[j] == old(video[j + COLS])
        invariant forall j :: i <= j < ROWS * COLS ==> video[j] == old(video[j])
      {
        video[i] := video[i + COLS];
      }
      for i := (ROWS - 1) * COLS to ROWS * COLS
        invariant forall j :: 0 <= j < (ROWS - 1) * COLS ==> video[j] == old(video[j + COLS])
        invariant forall j :: (ROWS - 1) * COLS <= j < i ==> video[j] == Cell(attribute, SPACE)
      {
        video[i] := Cell(attribute, SPACE);
      }
    }

    /** The top row goes to the scrollback, so that the scrollback counts one row more of the terminal. */
    method KeepTopRow()
      requires Shows()
      modifies this`scrollbackCount, scrollback
      ensures scrollbackCount == if Scrolled() < HISTORY then Scrolled() + 1 else HISTORY
      ensures Saved(term.rows, scrollbackCount)
    {
      ghost var cells, rows, top := video[..], term.rows, Scrolled();
      SaveLineToScrollback();
      forall r, c | 0 <= r < scrollbackCount && 0 <= c < COLS ensures scrollback[r, c] == rows[r][c] % 256 {
        if r == top {
          TopRow(cells, rows, top, c);
        }
      }
    }

    /** The screen pictures the terminal with one row more. */
    method RaiseRows()
      requires video.Length == ROWS * COLS && Scrolled() >= 0 && Rectangular(term.rows)
      requires Pictured(video[..], term.rows, Scrolled())
      modifies video
      ensures Rectangular(term.rows + [BlankRow(attribute)])
      ensures Pictured(video[..], term.rows + [BlankRow(attribute)], Scrolled() + 1)
    {
      ghost var cells := video[..];
      ShiftUp();
      ShiftPictured(cells, video[..], term.rows, BlankRow(attribute), Scrolled());
    }

    method Scroll()
      requires Shows()
      modifies this`cursorY, this`scrollbackCount, this`term, video, scrollback
      ensures Valid()
      ensures term == var t := old(term); if t.y == |t.rows| then t.(rows := t.rows + [BlankRow(attribute)]) else t
    {
      if cursorY >= 25 {
        ghost var shown := term.rows + [BlankRow(attribute)];
        KeepTopRow();
        RaiseRows();
        cursorY := 24;
        SavedMore(term.rows, BlankRow(attribute), scrollbackCount);
        term := term.(rows := shown);
      }
    }

    /** Writes a cell of the cursor's row. */
    method WriteCell(x: int, cell: int)
      requires Valid() && 0 <= x < COLS
      modifies this`term, video
      ensures Valid()
      ensures term == old(term).(rows := old(term).rows[old(term).y := old(term).rows[old(term).y][x := cell]])
    {
      WritePictured(video[..], term.rows, Scrolled(), cursorY, x, cell);
      ghost var cells := video[..];
      video[cursorY * COLS + x] := cell;
      assert video[..] == cells[cursorY * COLS + x := cell];
      term := term.(rows := term.rows[term.y := term.rows[term.y][x := cell]]);
    }

    /** The end of `print_char`: wrap at the right margin, then scroll. */
    method MoveTo(x: int, y: int)
      requires Valid() && 0 <= x <= COLS && cursorY <= y <= cursorY + 1 && (y > cursorY ==> x == 0)
      modifies this`cursorX, this`cursorY, this`scrollbackCount, this`term, video, scrollback
      ensures Valid()
      ensures term == old(term).MoveTo(x, old(term).y + y - old(cursorY), attribute)
    {
      ghost var y0 := term.y + y - cursorY;
      if x >= 80 {
        cursorX := 0;
        cursorY := y + 1;
        term := Term(term.rows, 0, y0 + 1);
      } else {
        cursorX := x;
        cursorY := y;
        term := Term(term.rows, x, y0);
      }
      Scroll();
    }

    /** `print_char` of a backspace: erases the character before the cursor, within the row. */
    method Erase()
      requires Valid()
      modifies this`cursorX, this`cursorY, this`scrollbackCount, this`term, video, scrollback
      ensures Valid()
      ensures term == old(term).Put(attribute, BACKSPACE)
    {
      if cursorX > 0 {
        cursorX := cursorX - 1;
        term := term.(x := term.x - 1);
        WriteCell(cursorX, Cell(attribute, SPACE));
      }
      StayPut(term, attribute);
      MoveTo(cursorX, cursorY);
    }

    method PrintChar(c: Byte)
      requires Valid()
      modifies this`cursorX, this`cursorY, this`scrollbackCount, this`term, video, scrollback
      ensures Valid()
      ensures term == old(term).Put(attribute, c)
    {
      if c == NEWLINE {
        MoveTo(0, cursorY + 1);
      } else if c == BACKSPACE {
        Erase();
      } else if c == TAB {
        MoveTo((cursorX + 4) / 4 * 4, cursorY);
      } else {
        WriteCell(cursorX, Cell(attribute, c));
        MoveTo(cursorX + 1, cursorY);
      }
    }

    /** `s` holds the characters before the terminating null. */
    method PrintString(s: seq<Byte>)
      requires Valid()
      modifies this`cursorX, this`cursorY, this`scrollbackCount, this`term, video, scrollback
      ensures Valid()
      ensures term == old(term).Feed(attribute, s)
    {
      for i := 0 to |s|
        invariant Valid()
        invariant term.Feed(attribute, s[i..]) == old(term).Feed(attribute, s)
      {
        assert s[i..][1..] == s[i + 1..];
        PrintChar(s[i]);
      }
    }

    method PrintDec(n: Word)
      requires Valid()
      modifies this`cursorX, this`cursorY, this`scrollbackCount, this`term, video, scrollback
      ensures Valid()
      ensures term == old(term).Feed(attribute, Decimal(n))
    {
      ghost var goal := term.Feed(attribute, Decimal(n));
      if n == 0 {
        FeedOne(term, attribute, ZERO);
        PrintChar(ZERO);
        return;
      }
      var digits := DigitBuffer(n);
      var i := |digits|;
      assert digits[..i] == digits;
      while i > 0
        invariant 0 <= i <= |digits|
        invariant Valid()
        invariant term.Feed(attribute, Reversed(digits[..i])) == goal
      {
        i := i - 1;
        ReversedMore(digits, i);
        FeedMore(term, attribute, digits[i], Reversed(digits[..i]));
        PrintChar(digits[i]);
      }
    }

    method SetTextColor(foreground: Byte, background: Byte)
      requires Valid()
      modifies this`attribute
      ensures Valid() && attribute == Colour(foreground, background)
    {
      attribute := Colour(foreground, background);
    }
  }

  /** `(background << 4) | (foreground & 0x0F)` in 8 bits. */
  function Colour(foreground: Byte, background: Byte): (r: Byte)
    ensures r / 16 == background % 16 && r % 16 == foreground % 16
  {
    background % 16 * 16 + foreground % 16
  }

  function Reversed(s: seq<Byte>): seq<Byte> {
    if s == [] then [] else [s[|s| - 1]] + Reversed(s[..|s| - 1])
  }

  lemma ReversedMore(s: seq<Byte>, i: nat)
    requires i < |s|
    ensures Reversed(s[..i + 1]) == [s[i]] + Reversed(s[..i])
  {
    assert s[..i + 1][..i] == s[..i];
  }

  /** The digits of `n`, last one first, as `print_dec` collects them: ten of the 32 bytes of its buffer are enough. */
  method DigitBuffer(n: Word) returns (digits: seq<Byte>)
    ensures Reversed(digits) == Digits(n)
  {
    var buffer: array<Byte> := new Byte[32];
    var i, m := 0, n;
    assert n < Pow10(10) by {
      assert Pow10(5) == 100000;
    }
    DigitCount(n, 10);
    while m > 0
      invariant 0 <= i && |Digits(m)| + i == |Digits(n)| <= 10
      invariant Digits(n) == Digits(m) + Reversed(buffer[..i])
    {
      buffer[i] := ZERO + m % 10;
      assert buffer[..i + 1][..i] == buffer[..i];
      i := i + 1;
      m := m / 10;
    }
    digits := buffer[..i];
  }
}
