/**
 A terminal that never forgets a row: characters are written at the cursor, and a new blank row
 is added below whenever the cursor leaves the last one.  The console shows its last 25 rows.
 */
module Terminal {
  const COLS := 80
  const ROWS := 25

  type Byte = x: int | 0 <= x < 256

  const NEWLINE: Byte := 10
  const BACKSPACE: Byte := 8
  const TAB: Byte := 9
  const SPACE: Byte := 32

  /** `(attribute << 8) | c` as a 16-bit cell, where `c` is a signed 8-bit character. */
  function Cell(attribute: Byte, c: Byte): (cell: int)
    ensures 0 <= cell < 0x1_0000 && cell % 256 == c
  {
    if c < 128 then attribute * 256 + c else 0xFF00 + c
  }

  /** The colour survives exactly when the character is 7-bit or the colour is already all ones. */
  lemma ColourKept(attribute: Byte, c: Byte)
    ensures Cell(attribute, c) / 256 == attribute <==> c < 128 || attribute == 0xFF
    ensures c >= 128 ==> Cell(attribute, c) / 256 == 0xFF
  {
  }

  function BlankRow(attribute: Byte): seq<int> {
    seq(COLS, _ => Cell(attribute, SPACE))
  }

  datatype Term = Term(rows: seq<seq<int>>, x: int, y: int) {
    ghost predicate Valid() {
      && (forall r :: 0 <= r < |rows| ==> |rows[r]| == COLS)
      && |rows| >= ROWS && 0 <= x < COLS && |rows| - ROWS <= y < |rows|
    }

    function Write(cell: int): Term
      requires 0 <= y < |rows| && 0 <= x < |rows[y]|
    {
      this.(rows := rows[y := rows[y][x := cell]])
    }

    /** Moves the cursor to `(x', y')`, to the next row if it is past the last column. */
    function MoveTo(x': int, y': int, attribute: Byte): Term {
      var t := if x' >= COLS then Term(rows, 0, y' + 1) else Term(rows, x', y');
      if t.y == |rows| then t.(rows := rows + [BlankRow(attribute)]) else t
    }

    function Put(attribute: Byte, c: Byte): (t: Term)
      requires Valid()
      ensures t.Valid()
    {
      if c == NEWLINE then MoveTo(0, y + 1, attribute)
      else if c == BACKSPACE then
        if x > 0 then this.(x := x - 1).Write(Cell(attribute, SPACE)) else this
      else if c == TAB then MoveTo((x + 4) / 4 * 4, y, attribute)
      else Write(Cell(attribute, c)).MoveTo(x + 1, y, attribute)
    }

    function Feed(attribute: Byte, s: seq<Byte>): (t: Term)
      requires Valid()
      ensures t.Valid()
      decreases |s|
    {
      if s == [] then this else Put(attribute, s[0]).Feed(attribute, s[1..])
    }
  }

  /** What `clear_screen` leaves. */
  function Blank(attribute: Byte): (t: Term)
    ensures t.Valid()
  {
    Term(seq(ROWS, _ => BlankRow(attribute)), 0, 0)
  }

  lemma StayPut(t: Term, attribute: Byte)
    requires t.Valid()
    ensures t.MoveTo(t.x, t.y, attribute) == t
  {
  }

  // ----- what the terminal shows

  /** A cleared screen is 25 rows of 80 blanks in the given colour, with the cursor in the top left corner. */
  lemma BlankScreen(attribute: Byte, p: int)
    requires 0 <= p < 2000
    ensures var t := Blank(attribute);
            |t.rows| * COLS == 2000 && t.x == 0 && t.y == 0 && CellAt(t, p) == Cell(attribute, 32)
  {
  }

  lemma FeedMore(t: Term, attribute: Byte, c: Byte, s: seq<Byte>)
    requires t.Valid()
    ensures t.Feed(attribute, [c] + s) == t.Put(attribute, c).Feed(attribute, s)
  {
    assert ([c] + s)[1..] == s;
  }

  lemma FeedOne(t: Term, attribute: Byte, c: Byte)
    requires t.Valid()
    ensures t.Feed(attribute, [c]) == t.Put(attribute, c)
  {
    FeedMore(t, attribute, c, []);
  }

  lemma {:induction false} FeedConcat(t: Term, attribute: Byte, s: seq<Byte>, u: seq<Byte>)
    requires t.Valid()
    ensures t.Feed(attribute, s + u) == t.Feed(attribute, s).Feed(attribute, u)
    decreases |s|
  {
    if s == [] {
      assert s + u == u;
    } else {
      assert (s + u)[1..] == s[1..] + u;
      FeedConcat(t.Put(attribute, s[0]), attribute, s[1..], u);
    }
  }

  /** Rows above the window never change again. */
  lemma {:induction false} HistoryFrozen(t: Term, attribute: Byte, s: seq<Byte>)
    requires t.Valid()
    ensures |t.rows| <= |t.Feed(attribute, s).rows|
    ensures t.Feed(attribute, s).rows[..|t.rows| - ROWS] == t.rows[..|t.rows| - ROWS]
    decreases |s|
  {
    if s != [] {
      var p := t.Put(attribute, s[0]);
      assert p.rows[..|t.rows| - ROWS] == t.rows[..|t.rows| - ROWS];
      HistoryFrozen(p, attribute, s[1..]);
      var f := t.Feed(attribute, s);
      assert f.rows[..|t.rows| - ROWS] == f.rows[..|p.rows| - ROWS][..|t.rows| - ROWS];
      assert p.rows[..|t.rows| - ROWS] == p.rows[..|p.rows| - ROWS][..|t.rows| - ROWS];
    }
  }

  predicate Printable(c: Byte) {
    c != NEWLINE && c != BACKSPACE && c != TAB
  }

  /** Position of the cursor in reading order. */
  function Position(t: Term): int {
    t.y * COLS + t.x
  }

  function CellAt(t: Term, p: int): int
    requires t.Valid() && 0 <= p < |t.rows| * COLS
  {
    t.rows[p / COLS][p % COLS]
  }

  lemma PutPosition(t: Term, attribute: Byte, c: Byte)
    requires t.Valid() && Printable(c)
    ensures Position(t.Put(attribute, c)) == Position(t) + 1
    ensures 0 <= Position(t) < |t.rows| * COLS <= |t.Put(attribute, c).rows| * COLS
  {
  }

  lemma PositionParts(t: Term)
    requires t.Valid()
    ensures Position(t) / COLS == t.y && Position(t) % COLS == t.x
  {
  }

  /** Of the cells there are, a printable character changes the one at the cursor. */
  lemma PutCell(t: Term, attribute: Byte, c: Byte, p: int)
    requires t.Valid() && Printable(c) && 0 <= p < |t.rows| * COLS
    ensures p < |t.Put(attribute, c).rows| * COLS
    ensures CellAt(t.Put(attribute, c), p) == if p == Position(t) then Cell(attribute, c) else CellAt(t, p)
  {
    PositionParts(t);
    var u := t.Write(Cell(attribute, c));
    assert u.rows[p / COLS][p % COLS] == if p == Position(t) then Cell(attribute, c) else CellAt(t, p);
  }

  lemma {:induction false} TextPosition(t: Term, attribute: Byte, s: seq<Byte>)
    requires t.Valid() && forall j :: 0 <= j < |s| ==> Printable(s[j])
    ensures Position(t.Feed(attribute, s)) == Position(t) + |s|
    ensures 0 <= Position(t) && |t.rows| <= |t.Feed(attribute, s).rows|
    ensures Position(t) + |s| < |t.Feed(attribute, s).rows| * COLS
    decreases |s|
  {
    if s != [] {
      PutPosition(t, attribute, s[0]);
      TextPosition(t.Put(attribute, s[0]), attribute, s[1..]);
    }
  }

  lemma {:induction false} TextCell(t: Term, attribute: Byte, s: seq<Byte>, p: int)
    requires t.Valid() && forall j :: 0 <= j < |s| ==> Printable(s[j])
    requires 0 <= p && (p < |t.rows| * COLS || Position(t) <= p < Position(t) + |s|)
    ensures p < |t.Feed(attribute, s).rows| * COLS
    ensures CellAt(t.Feed(attribute, s), p)
            == if Position(t) <= p < Position(t) + |s| then Cell(attribute, s[p - Position(t)]) else CellAt(t, p)
    decreases |s|
  {
    if s != [] {
      var q, rest := t.Put(attribute, s[0]), s[1..];
      PutPosition(t, attribute, s[0]);
      if p < |t.rows| * COLS {
        PutCell(t, attribute, s[0], p);
      }
      TextCell(q, attribute, rest, p);
    }
  }

  /** Printable text lands in consecutive cells from the cursor on, across row ends and scrolling, and in no other. */
  lemma TextInOrder(t: Term, attribute: Byte, s: seq<Byte>)
    requires t.Valid() && forall j :: 0 <= j < |s| ==> Printable(s[j])
    ensures Position(t.Feed(attribute, s)) == Position(t) + |s|
    ensures 0 <= Position(t) && |t.rows| <= |t.Feed(attribute, s).rows|
    ensures Position(t) + |s| < |t.Feed(attribute, s).rows| * COLS
    ensures forall j :: 0 <= j < |s| ==> CellAt(t.Feed(attribute, s), Position(t) + j) == Cell(attribute, s[j])
    ensures forall p :: 0 <= p < |t.rows| * COLS && !(Position(t) <= p < Position(t) + |s|) ==>
              CellAt(t.Feed(attribute, s), p) == CellAt(t, p)
  {
    TextPosition(t, attribute, s);
    forall j | 0 <= j < |s| ensures CellAt(t.Feed(attribute, s), Position(t) + j) == Cell(attribute, s[j]) {
      TextCell(t, attribute, s, Position(t) + j);
    }
    forall p | 0 <= p < |t.rows| * COLS && !(Position(t) <= p < Position(t) + |s|)
      ensures CellAt(t.Feed(attribute, s), p) == CellAt(t, p)
    {
      TextCell(t, attribute, s, p);
    }
  }

  /** A row is added exactly when the cursor leaves the last one, and it is blank. */
  lemma RowAdded(t: Term, attribute: Byte, c: Byte)
    requires t.Valid()
    ensures var u := t.Put(attribute, c);
            && |u.rows| == (if u.y == |t.rows| then |t.rows| + 1 else |t.rows|)
            && (u.y == |t.rows| ==> forall k :: 0 <= k < COLS ==> u.rows[u.y][k] == Cell(attribute, 32))
  {
  }

  /** A newline starts the next row and changes no cell. */
  lemma NewlineEffect(t: Term, attribute: Byte)
    requires t.Valid()
    ensures var u := t.Put(attribute, 10);
            && u.x == 0 && u.y == t.y + 1
            && |t.rows| <= |u.rows| && forall r :: 0 <= r < |t.rows| ==> u.rows[r] == t.rows[r]
  {
  }

  /** A tab moves to the next multiple of 4, or to the next row if that is past the margin, and changes no cell. */
  lemma TabEffect(t: Term, attribute: Byte)
    requires t.Valid()
    ensures var u := t.Put(attribute, 9);
            && u.x % 4 == 0
            && (if t.x < 76 then t.x < u.x <= t.x + 4 && u.y == t.y else u.x == 0 && u.y == t.y + 1)
            && |t.rows| <= |u.rows| && forall r :: 0 <= r < |t.rows| ==> u.rows[r] == t.rows[r]
  {
    TabStop(t.x);
  }

  lemma TabStop(x: int)
    requires 0 <= x < COLS
    ensures var s := (x + 4) / 4 * 4; s % 4 == 0 && x < s <= x + 4 && (s >= COLS <==> x >= 76) && s <= COLS
  {
  }

  /** A backspace moves back within the row and blanks the cell it comes to; in column 0 nothing happens. */
  lemma BackspaceEffect(t: Term, attribute: Byte, p: int)
    requires t.Valid() && 0 <= p < |t.rows| * COLS
    ensures var u := t.Put(attribute, 8);
            if t.x == 0 then u == t
            else
              && u.x == t.x - 1 && u.y == t.y && |u.rows| == |t.rows|
              && CellAt(u, p) == if p == Position(t) - 1 then Cell(attribute, 32) else CellAt(t, p)
  {
    if t.x > 0 {
      PositionParts(t.(x := t.x - 1));
    }
  }

  /** Backspace takes the cursor back over a printed character exactly when the character did not end a row. */
  lemma BackspaceUndoes(t: Term, attribute: Byte, c: Byte)
    requires t.Valid() && Printable(c)
    ensures var u := t.Put(attribute, c).Put(attribute, BACKSPACE); (u.x, u.y) == (t.x, t.y) <==> t.x < COLS - 1
    ensures t.x < COLS - 1 ==> t.Put(attribute, c).Put(attribute, BACKSPACE) == t.Write(Cell(attribute, SPACE))
  {
    if t.x < COLS - 1 {
      var row, blank := t.rows[t.y], Cell(attribute, SPACE);
      assert row[t.x := Cell(attribute, c)][t.x := blank] == row[t.x := blank];
      var u := t.Put(attribute, c).Put(attribute, BACKSPACE);
      assert u.rows == t.Write(Cell(attribute, SPACE)).rows;
    }
  }

  // ----- decimal numbers

  const ZERO: Byte := 48

  /** The decimal digits of `n`, none for zero. */
  function Digits(n: nat): seq<Byte> {
    if n == 0 then [] else Digits(n / 10) + [ZERO + n % 10]
  }

  function Decimal(n: nat): seq<Byte> {
    if n == 0 then [ZERO] else Digits(n)
  }

  /** The number a digit string denotes. */
  function Value(ds: seq<Byte>): int
    decreases |ds|
  {
    if ds == [] then 0 else 10 * Value(ds[..|ds| - 1]) + (ds[|ds| - 1] - ZERO)
  }

  lemma {:induction false} DigitsValue(n: nat)
    ensures Value(Digits(n)) == n
  {
    if n > 0 {
      DigitsValue(n / 10);
      ValueMore(Digits(n / 10), ZERO + n % 10);
    }
  }

  lemma ValueMore(ds: seq<Byte>, d: Byte)
    ensures Value(ds + [d]) == 10 * Value(ds) + (d - ZERO)
  {
    assert (ds + [d])[..|ds|] == ds;
  }

  lemma {:induction false} DigitsAreDigits(n: nat, j: nat)
    requires j < |Digits(n)|
    ensures ZERO <= Digits(n)[j] <= ZERO + 9
  {
    if j < |Digits(n / 10)| {
      DigitsAreDigits(n / 10, j);
    }
  }

  lemma {:induction false} NoLeadingZero(n: nat)
    requires n > 0
    ensures |Digits(n)| > 0 && Digits(n)[0] != ZERO
  {
    if n >= 10 {
      NoLeadingZero(n / 10);
    }
  }

  /** The digits denote the number, are digits, and do not start with a zero. */
  lemma DigitsDenote(n: nat)
    ensures Value(Digits(n)) == n
    ensures forall j :: 0 <= j < |Digits(n)| ==> ZERO <= Digits(n)[j] <= ZERO + 9
    ensures n > 0 ==> |Digits(n)| > 0 && Digits(n)[0] != ZERO
  {
    DigitsValue(n);
    forall j | 0 <= j < |Digits(n)| ensures ZERO <= Digits(n)[j] <= ZERO + 9 {
      DigitsAreDigits(n, j);
    }
    if n > 0 {
      NoLeadingZero(n);
    }
  }

  lemma DecimalDenotes(n: nat)
    ensures Value(Decimal(n)) == n && |Decimal(n)| > 0
    ensures n > 0 ==> Decimal(n)[0] != ZERO
    ensures n == 0 ==> Decimal(n) == [48]
    ensures forall j :: 0 <= j < |Decimal(n)| ==> ZERO <= Decimal(n)[j] <= ZERO + 9
  {
    DigitsDenote(n);
    assert Decimal(0)[..0] == [];
  }

  function Pow10(k: nat): nat {
    if k == 0 then 1 else 10 * Pow10(k - 1)
  }

  lemma {:induction false} DigitCount(n: nat, k: nat)
    requires n < Pow10(k)
    ensures |Digits(n)| <= k
  {
    if n > 0 {
      DigitCount(n / 10, k - 1);
    }
  }
}
