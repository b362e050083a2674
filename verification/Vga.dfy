// The VGA text console: a fixed array of 80x25 cells that always shows the end
// of a terminal whose lines are never lost.
module Vga {
  import opened Words
  import opened Arithmetic

  const WIDTH: nat := 80
  const HEIGHT: nat := 25
  const CELLS: nat := 2000
  const LIGHT_GREY_ON_BLACK: byte := 0x07
  const BACKSPACE: byte := 8
  const TAB: byte := 9
  const NEWLINE: byte := 10
  const RETURN: byte := 13
  const BLANK: byte := 0x20

  // vga_entry. A char is signed: from 0x80 on the conversion to 16 bits fills
  // the high byte with ones, and the colour is lost.
  function Cell(c: byte, attr: byte): u16 {
    var colour: int := attr;
    if c < 0x80 then c + colour * 0x100 else 0xFF00 + c
  }

  lemma CellKeepsColour(c: byte, attr: byte)
    ensures Cell(c, attr) % 0x100 == c
    ensures Cell(c, attr) / 0x100 == attr <==> c < 0x80 || attr == 0xFF
  {
  }

  type Row = r: seq<u16> | |r| == WIDTH witness seq(WIDTH, _ => 0)

  function BlankRow(attr: byte): Row {
    seq(WIDTH, _ => Cell(BLANK, attr))
  }

  // ---- The reference terminal ---------------------------------------------

  // All lines written since the last clear; the cursor is on the last one.
  datatype Terminal = Terminal(lines: seq<Row>, col: nat, attr: byte, clearAttr: byte) {
    predicate Valid() {
      |lines| > 0 && col < WIDTH
    }

    // A new line takes the colour of the screen it scrolls into.
    function NewLine(): Terminal {
      this.(lines := lines + [BlankRow(if |lines| < HEIGHT then clearAttr else attr)], col := 0)
    }

    function MoveTo(column: nat): Terminal {
      if column >= WIDTH then NewLine() else this.(col := column)
    }

    function Written(column: nat, cell: u16): Terminal
      requires |lines| > 0 && column < WIDTH
    {
      var last := |lines| - 1;
      this.(lines := lines[last := lines[last][column := cell]])
    }

    function Put(c: byte): (t: Terminal)
      requires Valid()
      ensures t.Valid()
    {
      if c == NEWLINE then NewLine()
      else if c == RETURN then MoveTo(0)
      else if c == TAB then MoveTo((col + 8) / 8 * 8)
      else if c == BACKSPACE then
        if col == 0 then this else Written(col - 1, Cell(BLANK, attr)).MoveTo(col - 1)
      else Written(col, Cell(c, attr)).MoveTo(col + 1)
    }

    // The row of the terminal shown in a row of the screen.
    function ShownRow(r: nat): Row
      requires |lines| > 0
    {
      var top := if |lines| < HEIGHT then 0 else |lines| - HEIGHT;
      if top + r < |lines| then lines[top + r] else BlankRow(clearAttr)
    }

    // The last 25 lines, cell by cell.
    ghost function Screen(): (s: seq<u16>)
      requires |lines| > 0
      ensures |s| == CELLS
    {
      seq(CELLS, p requires 0 <= p => ShownRow(p / WIDTH)[p % WIDTH])
    }

    function CursorRow(): int {
      Least(|lines|, HEIGHT) - 1
    }
  }

  function Cleared(attr: byte): Terminal {
    Terminal([BlankRow(attr)], 0, attr, attr)
  }

  datatype Operation = Char(c: byte) | Colour(fg: byte, bg: byte) | Clear

  function Apply(t: Terminal, op: Operation): (t': Terminal)
    requires t.Valid()
    ensures t'.Valid()
  {
    match op
    case Char(c) => t.Put(c)
    case Colour(fg, bg) => t.(attr := Attribute(fg, bg))
    case Clear => Cleared(t.attr)
  }

  function Attribute(fg: byte, bg: byte): byte {
    var high: int := bg % 0x10;
    high * 0x10 + fg % 0x10
  }

  function After(t: Terminal, ops: seq<Operation>): (t': Terminal)
    requires t.Valid()
    ensures t'.Valid()
  {
    if |ops| == 0 then t else Apply(After(t, ops[..|ops| - 1]), ops[|ops| - 1])
  }

  lemma WrittenOnScreen(t: Terminal, column: nat, cell: u16)
    requires t.Valid() && column < WIDTH
    ensures t.Written(column, cell).Screen() == t.Screen()[t.CursorRow() * WIDTH + column := cell]
  {
    var p := t.CursorRow() * WIDTH + column;
    DivModUnique(p, WIDTH, t.CursorRow(), column);
    var before, after := t.Screen(), t.Written(column, cell).Screen();
    forall q | 0 <= q < CELLS
      ensures after[q] == before[p := cell][q]
    {
      if q / WIDTH == t.CursorRow() && q % WIDTH == column {
        assert q == p;
      }
    }
  }

  // Before the screen is full a new line shows where a blank one was.
  lemma NewLineBelow(t: Terminal)
    requires t.Valid() && |t.lines| < HEIGHT
    ensures t.NewLine().Screen() == t.Screen()
  {
  }

  // Afterwards every shown line moves up by one.
  lemma NewLineScrolls(t: Terminal)
    requires t.Valid() && |t.lines| >= HEIGHT
    ensures t.NewLine().Screen() == t.Screen()[WIDTH..] + BlankRow(t.attr)
  {
    var before, after := t.Screen(), t.NewLine().Screen();
    forall q | 0 <= q < CELLS
      ensures after[q] == (before[WIDTH..] + BlankRow(t.attr))[q]
    {
      if q < CELLS - WIDTH {
        DivModUnique(q + WIDTH, WIDTH, q / WIDTH + 1, q % WIDTH);
      }
    }
  }

  // ---- The driver ---------------------------------------------------------

  class Console {
    const cells: array<u16>
    var col: nat
    var row: nat
    var attr: byte

    // The screen shows a terminal, with the cursor in the same place.
    ghost predicate Shows(t: Terminal)
      reads this, cells
    {
      && cells.Length == CELLS && t.Valid()
      && cells[..] == t.Screen()
      && col == t.col && row == t.CursorRow() && attr == t.attr
    }

    // vga_init.
    constructor ()
      ensures Shows(Cleared(0x07))
    {
      cells := new u16[CELLS](_ => 0);
      attr, col, row := LIGHT_GREY_ON_BLACK, 0, 0;
      new;
      ClearScreen();
    }

    // vga_clear.
    method ClearScreen()
      requires cells.Length == CELLS
      modifies this`col, this`row, cells
      ensures Shows(Cleared(attr))
    {
      for i := 0 to CELLS
        invariant forall p :: 0 <= p < i ==> cells[p] == Cell(BLANK, attr)
      {
        cells[i] := Cell(BLANK, attr);
      }
      col, row := 0, 0;
    }

    // vga_set_color; the background is shifted in eight bits.
    method SetColour(fg: byte, bg: byte, ghost t: Terminal)
      requires Shows(t)
      modifies this`attr
      ensures Shows(t.(attr := Attribute(fg, bg)))
    {
      var shifted: int := bg * 0x10;
      attr := shifted % 0x100 + fg % 0x10;
      ShiftedNibble(bg);
      assert t.(attr := attr).Screen() == t.Screen();
    }

    // vga_scroll: the rows move up in place, first row first.
    method Scroll()
      requires cells.Length == CELLS
      modifies this`row, cells
      ensures cells[..] == old(cells[WIDTH..]) + BlankRow(attr)
      ensures row == HEIGHT - 1
    {
      for i := 0 to CELLS - WIDTH
        invariant forall p :: 0 <= p < i ==> cells[p] == old(cells[p + WIDTH])
        invariant forall p :: i <= p < CELLS ==> cells[p] == old(cells[p])
      {
        cells[i] := cells[i + WIDTH];
      }
      for i := CELLS - WIDTH to CELLS
        invariant forall p :: 0 <= p < CELLS - WIDTH ==> cells[p] == old(cells[p + WIDTH])
        invariant forall p :: CELLS - WIDTH <= p < i ==> cells[p] == Cell(BLANK, attr)
      {
        cells[i] := Cell(BLANK, attr);
      }
      row := HEIGHT - 1;
    }

    // The end of vga_putchar: wrapping at the right edge, and scrolling.
    method Settle(ghost u: Terminal, ghost newLine: bool)
      requires cells.Length == CELLS && u.Valid() && cells[..] == u.Screen() && attr == u.attr
      requires if newLine then col == 0 && row == u.CursorRow() + 1 else row == u.CursorRow()
      modifies this`col, this`row, cells
      ensures Shows(if newLine then u.NewLine() else u.MoveTo(old(col)))
    {
      if |u.lines| < HEIGHT {
        NewLineBelow(u);
      } else {
        NewLineScrolls(u);
      }
      assert col < WIDTH && !newLine ==> u.MoveTo(col).Screen() == u.Screen();
      if col >= WIDTH {
        col := 0;
        row := row + 1;
      }
      if row >= HEIGHT {
        Scroll();
      }
    }

    method WriteCell(cell: u16, ghost t: Terminal)
      requires cells.Length == CELLS && t.Valid() && cells[..] == t.Screen()
      requires col < WIDTH && row == t.CursorRow()
      modifies cells
      ensures cells[..] == t.Written(col, cell).Screen()
    {
      WrittenOnScreen(t, col, cell);
      cells[row * WIDTH + col] := cell;
    }

    // vga_putchar.
    method Putchar(c: byte, ghost t: Terminal)
      requires Shows(t)
      modifies this`col, this`row, cells
      ensures Shows(t.Put(c))
    {
      hide Terminal.Screen, Terminal.NewLine, Cell;
      ghost var u := t;
      if c == NEWLINE {
        col := 0;
        row := row + 1;
      } else if c == RETURN {
        col := 0;
      } else if c == TAB {
        col := (col + 8) / 8 * 8;
      } else if c == BACKSPACE {
        if col > 0 {
          col := col - 1;
          u := t.Written(col, Cell(BLANK, attr));
          WriteCell(Cell(BLANK, attr), t);
        }
      } else {
        u := t.Written(col, Cell(c, attr));
        WriteCell(Cell(c, attr), t);
        col := col + 1;
      }
      Settle(u, c == NEWLINE);
    }

    // Any run of characters, colour changes and clears.
    method Feed(ops: seq<Operation>, ghost t: Terminal)
      requires Shows(t)
      modifies this, cells
      ensures Shows(After(t, ops))
    {
      for n := 0 to |ops|
        invariant Shows(After(t, ops[..n]))
      {
        assert ops[..n + 1][..n] == ops[..n];
        ghost var u := After(t, ops[..n]);
        match ops[n] {
          case Char(c) => Putchar(c, u);
          case Colour(fg, bg) => SetColour(fg, bg, u);
          case Clear => ClearScreen();
        }
      }
      assert ops[..|ops|] == ops;
    }
  }

  lemma ShiftedNibble(bg: byte)
    ensures bg * 0x10 % 0x100 == bg % 0x10 * 0x10
  {
  }

  // ---- The reference terminal, in numbers -----------------------------------

  // Row r and column c of the screen are cell 80 * r + c: the last 25 lines, or
  // all of them and blank ones below.
  lemma ScreenCells(t: Terminal, r: nat, c: nat)
    requires t.Valid() && r < 25 && c < 80
    ensures |t.Screen()| == 2000
    ensures var n := |t.lines|;
      && (n >= 25 ==> t.Screen()[80 * r + c] == t.lines[n - 25 + r][c])
      && (r < n < 25 ==> t.Screen()[80 * r + c] == t.lines[r][c])
      && (n <= r ==> t.Screen()[80 * r + c] == Cell(0x20, t.clearAttr))
  {
    DivModUnique(80 * r + c, WIDTH, r, c);
    hide Cell;
  }

  // What each character does to the line the cursor is on, and to the cursor.
  lemma PutMeans(t: Terminal, c: byte)
    requires t.Valid()
    ensures var u, last, before := t.Put(c), |t.lines| - 1, t.lines[|t.lines| - 1];
      && (c == 0x0A ==> u.col == 0 && |u.lines| == |t.lines| + 1 && u.lines[last] == before)
      && (c == 0x0D ==> u == t.(col := 0))
      && (c == 0x09 ==> u.lines[last] == before)
      && (c == 0x09 && t.col < 72 ==> |u.lines| == |t.lines| && t.col < u.col <= t.col + 8 && u.col % 8 == 0)
      && (c == 0x09 && t.col >= 72 ==> |u.lines| == |t.lines| + 1 && u.col == 0)
      && (c == 0x08 && t.col == 0 ==> u == t)
      && (c == 0x08 && t.col > 0 ==> u.col == t.col - 1 && |u.lines| == |t.lines|)
      && (c == 0x08 && t.col > 0 ==> u.lines[last] == before[t.col - 1 := Cell(0x20, t.attr)])
      && (c !in {0x08, 0x09, 0x0A, 0x0D} ==> u.lines[last] == before[t.col := Cell(c, t.attr)])
      && (c !in {0x08, 0x09, 0x0A, 0x0D} && t.col < 79 ==> |u.lines| == |t.lines| && u.col == t.col + 1)
      && (c !in {0x08, 0x09, 0x0A, 0x0D} && t.col == 79 ==> |u.lines| == |t.lines| + 1 && u.col == 0)
  {
    hide Cell;
  }

  // The foreground is the low half of the colour, the background the high one.
  lemma ColourHalves(t: Terminal, fg: byte, bg: byte)
    requires t.Valid()
    ensures var u := Apply(t, Colour(fg, bg));
      u.attr % 16 == fg % 16 && u.attr / 16 == bg % 16 && u.lines == t.lines && u.col == t.col
  {
  }

  // A cell is its character and its colour, eight bits each; from 0x80 on the
  // colour is all ones.
  lemma CellBytes(c: byte, attr: byte)
    ensures Cell(c, attr) % 256 == c && Cell(c, attr) / 256 == if c < 128 then attr else 255
  {
  }

  // ---- What the reference terminal stands for ------------------------------

  // No character touches a line above the cursor, so what has scrolled up, or
  // out, is final.
  lemma EarlierLinesStay(t: Terminal, c: byte)
    requires t.Valid()
    ensures |t.Put(c).lines| >= |t.lines|
    ensures t.Put(c).lines[..|t.lines| - 1] == t.lines[..|t.lines| - 1]
  {
  }

  predicate Printable(c: byte) {
    c != NEWLINE && c != RETURN && c != TAB && c != BACKSPACE
  }

  function Text(s: seq<byte>): seq<Operation> {
    seq(|s|, i requires 0 <= i < |s| => Char(s[i]))
  }

  // Cells in reading order, and where the next one goes.
  function CellAt(t: Terminal, p: nat): u16
    requires p / WIDTH < |t.lines|
  {
    t.lines[p / WIDTH][p % WIDTH]
  }

  function Position(t: Terminal): nat
    requires t.Valid()
  {
    (|t.lines| - 1) * WIDTH + t.col
  }

  lemma OneCharacter(t: Terminal, c: byte)
    requires t.Valid() && Printable(c)
    ensures Position(t.Put(c)) == Position(t) + 1 && t.Put(c).attr == t.attr
    ensures CellAt(t.Put(c), Position(t)) == Cell(c, t.attr)
    ensures forall p: nat :: p < Position(t) ==> p / WIDTH < |t.lines| && CellAt(t.Put(c), p) == CellAt(t, p)
  {
  }

  // Cells show some text from a position on.
  ghost predicate Appears(t: Terminal, from: nat, s: seq<byte>, attr: byte) {
    forall i :: 0 <= i < |s| ==> (from + i) / WIDTH < |t.lines| && CellAt(t, from + i) == Cell(s[i], attr)
  }

  lemma OneMoreAppears(t: Terminal, from: nat, s: seq<byte>, c: byte)
    requires t.Valid() && Printable(c) && Position(t) == from + |s| && Appears(t, from, s, t.attr)
    ensures var u := t.Put(c);
      Position(u) == from + |s| + 1 && u.attr == t.attr && Appears(u, from, s + [c], t.attr)
  {
    OneCharacter(t, c);
    EarlierLinesStay(t, c);
    var u := t.Put(c);
    hide Terminal.Put, Cell, Position;
    forall i | 0 <= i < |s + [c]|
      ensures (from + i) / WIDTH < |u.lines| && CellAt(u, from + i) == Cell((s + [c])[i], t.attr)
    {
      if i < |s| {
        assert CellAt(t, from + i) == Cell(s[i], t.attr);
      }
    }
  }

  // Plain text appears in reading order from the cursor on, across line ends.
  lemma {:induction false} TextAppears(t: Terminal, s: seq<byte>)
    requires t.Valid() && (forall c :: c in s ==> Printable(c))
    ensures var u := After(t, Text(s));
      && Position(u) == Position(t) + |s| && u.attr == t.attr
      && Appears(u, Position(t), s, t.attr)
  {
    hide Cell, Terminal.Put, Appears, Position;
    if |s| > 0 {
      var front := s[..|s| - 1];
      TextAppears(t, front);
      assert Text(s)[..|s| - 1] == Text(front);
      assert front + [s[|s| - 1]] == s;
      OneMoreAppears(After(t, Text(front)), Position(t), front, s[|s| - 1]);
    } else {
      NothingAppears(t);
    }
  }

  lemma NothingAppears(t: Terminal)
    requires t.Valid()
    ensures Appears(t, Position(t), [], t.attr)
  {
  }
}
