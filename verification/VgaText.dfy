// drivers/src/peripheral/x86/vga_text.rs: the 80x25 text screen as a window on an
// unbounded transcript of rows.
module VgaText {

  const COLS := 80
  const ROWS := 25

  datatype Cell = Cell(ch: nat, attr: nat)

  type Row = seq<Cell>

  function Blank(attr: nat): Cell {
    Cell(0x20, attr)
  }

  function BlankRow(attr: nat): Row {
    seq(COLS, _ => Blank(attr))
  }

  // ---- The unbounded terminal ----

  /**
   * All rows written since the last clear.  The screen shows the last 25 of them; `col` and `row` are
   * the cursor within it.
   */
  datatype Terminal = Terminal(rows: seq<Row>, col: nat, row: nat, attr: nat) {

    ghost predicate Valid() {
      && ROWS <= |rows| && col < COLS && row < ROWS
      && forall i :: 0 <= i < |rows| ==> |rows[i]| == COLS
    }

    /** Rows that have scrolled off the screen. */
    function Top(): int {
      |rows| - ROWS
    }

    /** Put a cell where the cursor is. */
    function Put(cell: Cell): Terminal
      requires Valid()
    {
      var r := Top() + row;
      this.(rows := rows[r := rows[r][col := cell]])
    }

    function Newline(): Terminal {
      if row + 1 >= ROWS then this.(rows := rows + [BlankRow(attr)], col := 0, row := ROWS - 1)
      else this.(col := 0, row := row + 1)
    }

    function Advance(): Terminal {
      if col + 1 >= COLS then Newline() else this.(col := col + 1)
    }

    function WriteByte(byte: nat): Terminal
      requires Valid()
    {
      if byte == 0x0A then Newline()
      else if byte == 0x0D then this.(col := 0)
      else if byte == 0x08 then this.(col := if col > 0 then col - 1 else col).Put(Blank(attr))
      else Put(Cell(byte, attr)).Advance()
    }

    function SetCursor(c: nat, r: nat): Terminal {
      this.(col := if c < COLS - 1 then c else COLS - 1, row := if r < ROWS - 1 then r else ROWS - 1)
    }

    function Clear(): Terminal {
      Terminal(seq(ROWS, _ => BlankRow(attr)), 0, 0, attr)
    }
  }

  datatype Command = Byte(b: nat) | Cursor(col: nat, row: nat) | Color(attr: nat) | ClearScreen

  function Apply(t: Terminal, c: Command): Terminal
    requires t.Valid()
  {
    match c
    case Byte(b) => t.WriteByte(b)
    case Cursor(col, row) => t.SetCursor(col, row)
    case Color(attr) => t.(attr := attr)
    case ClearScreen => t.Clear()
  }

  /** Every command leaves the cursor on the screen, and rows that have scrolled off unchanged unless it clears. */
  lemma ApplyKeeps(t: Terminal, c: Command)
    requires t.Valid()
    ensures Apply(t, c).Valid()
    ensures !c.ClearScreen? ==>
              |t.rows| <= |Apply(t, c).rows| <= |t.rows| + 1 && Apply(t, c).rows[..t.Top()] == t.rows[..t.Top()]
  {
  }

  function Run(t: Terminal, commands: seq<Command>): Terminal
    requires t.Valid()
    decreases |commands|
  {
    if commands == [] then t
    else
      ApplyKeeps(t, commands[0]);
      Run(Apply(t, commands[0]), commands[1..])
  }

  /** Over any sequence of commands without a clear the transcript only grows at its end. */
  lemma {:induction false} ScrolledRowsAreFinal(t: Terminal, commands: seq<Command>)
    requires t.Valid() && ClearScreen !in commands
    ensures var u := Run(t, commands);
            u.Valid() && |t.rows| <= |u.rows| && u.rows[..t.Top()] == t.rows[..t.Top()]
    decreases |commands|
  {
    if commands != [] {
      ApplyKeeps(t, commands[0]);
      var s := Apply(t, commands[0]);
      ScrolledRowsAreFinal(s, commands[1..]);
      assert s.rows[..s.Top()][..t.Top()] == s.rows[..t.Top()];
      var u := Run(s, commands[1..]);
      assert u.rows[..s.Top()][..t.Top()] == u.rows[..t.Top()];
    }
  }

  // ---- What is where on the transcript ----

  /** Cell `c` of transcript row `r`; a row that is not there yet is blank in the current colour. */
  function CellOf(t: Terminal, r: nat, c: nat): Cell {
    if r < |t.rows| && c < |t.rows[r]| then t.rows[r][c] else Cell(0x20, t.attr)
  }

  predicate Printable(byte: nat) {
    byte != 0x0A && byte != 0x0D && byte != 0x08
  }

  /** The cursor's row on the transcript. */
  function CursorRow(t: Terminal): int {
    |t.rows| - 25 + t.row
  }

  /**
   * A line feed goes to column 0 of the next row, a carriage return to column 0; a backspace steps back, not past
   * column 0, and blanks the cell it arrives at; any other byte is put where the cursor is, which then steps on,
   * from column 79 to column 0 of the next row.
   */
  lemma ByteMeans(t: Terminal, byte: nat)
    requires t.Valid()
    ensures var u, at := t.WriteByte(byte), CursorRow(t);
            && u.Valid() && u.attr == t.attr
            && |u.rows| == (if CursorRow(u) < |t.rows| then |t.rows| else CursorRow(u) + 1)
            && (byte == 0x0A ==> u.col == 0 && CursorRow(u) == at + 1)
            && (byte == 0x0D ==> u.col == 0 && CursorRow(u) == at)
            && (byte == 0x08 ==> u.col == (if t.col > 0 then t.col - 1 else 0) && CursorRow(u) == at)
            && (Printable(byte) ==> CursorRow(u) * 80 + u.col == at * 80 + t.col + 1)
            && forall r: nat, c: nat :: c < 80 ==>
                 CellOf(u, r, c) ==
                 if r == at && Printable(byte) && c == t.col then Cell(byte, t.attr)
                 else if r == at && byte == 0x08 && c == u.col then Cell(0x20, t.attr)
                 else CellOf(t, r, c)
  {
  }

  function Typed(bytes: seq<nat>): seq<Command> {
    seq(|bytes|, i requires 0 <= i < |bytes| => Byte(bytes[i]))
  }

  /** `u` is `t` with the bytes put into successive cells from the cursor on, which has moved past them. */
  ghost predicate Printed(t: Terminal, u: Terminal, bytes: seq<nat>) {
    var start := CursorRow(t) * 80 + t.col;
    && u.Valid() && u.attr == t.attr && CursorRow(u) * 80 + u.col == start + |bytes|
    && |u.rows| == (if CursorRow(u) < |t.rows| then |t.rows| else CursorRow(u) + 1)
    && forall r: nat, c: nat :: c < 80 ==>
         CellOf(u, r, c) ==
         if start <= r * 80 + c < start + |bytes| then Cell(bytes[r * 80 + c - start], t.attr) else CellOf(t, r, c)
  }

  /** Bytes of any number fill cell after cell and row after row. */
  lemma {:induction false} BytesFill(t: Terminal, bytes: seq<nat>, rest: seq<Command>) returns (u: Terminal)
    requires t.Valid() && forall b :: b in bytes ==> Printable(b)
    ensures Printed(t, u, bytes) && Run(t, Typed(bytes) + rest) == Run(u, rest)
    decreases |bytes|
  {
    if bytes == [] {
      assert Typed(bytes) + rest == rest;
      u := t;
    } else {
      var s := t.WriteByte(bytes[0]);
      ByteMeans(t, bytes[0]);
      u := BytesFill(s, bytes[1..], rest);
      PrintedCons(t, s, u, bytes);
      assert Typed(bytes) + rest == [Byte(bytes[0])] + (Typed(bytes[1..]) + rest);
    }
  }

  lemma PrintedCons(t: Terminal, s: Terminal, u: Terminal, bytes: seq<nat>)
    requires t.Valid() && bytes != [] && Printed(t, s, bytes[..1]) && Printed(s, u, bytes[1..])
    ensures Printed(t, u, bytes)
  {
    var start := CursorRow(t) * 80 + t.col;
    forall r: nat, c: nat | c < 80
      ensures CellOf(u, r, c) ==
              if start <= r * 80 + c < start + |bytes| then Cell(bytes[r * 80 + c - start], t.attr) else CellOf(t, r, c)
    {
      assert CellOf(s, r, c) == if r * 80 + c == start then Cell(bytes[0], t.attr) else CellOf(t, r, c);
    }
  }

  /** The bytes of the lines, each followed by a line feed. */
  function TypedLines(lines: seq<seq<nat>>): seq<Command> {
    if lines == [] then [] else Typed(lines[0]) + [Byte(0x0A)] + TypedLines(lines[1..])
  }

  predicate Short(line: seq<nat>) {
    |line| < 80 && forall b :: b in line ==> Printable(b)
  }

  /**
   * Short lines typed from column 0 on are on the transcript one below the other, each from column 0; every other
   * cell is as before or blank, and the cursor waits in column 0 below them.
   */
  lemma {:induction false} LinesPrinted(t: Terminal, lines: seq<seq<nat>>)
    requires t.Valid() && t.col == 0 && forall line :: line in lines ==> Short(line)
    ensures var u, at := Run(t, TypedLines(lines)), CursorRow(t);
            && u.Valid() && u.col == 0 && u.attr == t.attr && CursorRow(u) == at + |lines|
            && |u.rows| == (if at + |lines| < |t.rows| then |t.rows| else at + |lines| + 1)
            && forall r: nat, c: nat :: c < 80 ==>
                 CellOf(u, r, c) ==
                 if at <= r < at + |lines| && c < |lines[r - at]| then Cell(lines[r - at][c], t.attr) else CellOf(t, r, c)
    decreases |lines|
  {
    if lines != [] {
      var line, at := lines[0], CursorRow(t);
      assert Short(line);
      var rest := [Byte(0x0A)] + TypedLines(lines[1..]);
      var s := BytesFill(t, line, rest);
      assert TypedLines(lines) == Typed(line) + rest;
      ByteMeans(s, 0x0A);
      var v := s.WriteByte(0x0A);
      assert rest[1..] == TypedLines(lines[1..]);
      assert Run(s, rest) == Run(v, TypedLines(lines[1..]));
      LinesPrinted(v, lines[1..]);
      LineThenLines(t, s, v, Run(v, TypedLines(lines[1..])), lines);
    }
  }

  lemma LineThenLines(t: Terminal, s: Terminal, v: Terminal, u: Terminal, lines: seq<seq<nat>>)
    requires t.Valid() && t.col == 0 && lines != [] && Short(lines[0]) && Printed(t, s, lines[0])
    requires CursorRow(v) == CursorRow(t) + 1 && v.attr == t.attr == u.attr
    requires forall r: nat, c: nat :: c < 80 ==> CellOf(v, r, c) == CellOf(s, r, c)
    requires forall r: nat, c: nat :: c < 80 ==>
               CellOf(u, r, c) ==
               if CursorRow(v) <= r < CursorRow(v) + |lines| - 1 && c < |lines[1..][r - CursorRow(v)]|
               then Cell(lines[1..][r - CursorRow(v)][c], t.attr) else CellOf(v, r, c)
    ensures var at := CursorRow(t);
            forall r: nat, c: nat :: c < 80 ==>
              CellOf(u, r, c) ==
              if at <= r < at + |lines| && c < |lines[r - at]| then Cell(lines[r - at][c], t.attr) else CellOf(t, r, c)
  {
  }

  // ---- The driver ----

  class VgaText {
    const buf: array<nat>
    var col: nat
    var row: nat
    var attr: nat
    ghost var terminal: Terminal

    /** Cell (c, r) of the hardware buffer: character byte, then attribute byte. */
    function CellAt(c: nat, r: nat): Cell
      requires buf.Length == 2 * COLS * ROWS && c < COLS && r < ROWS
      reads buf
    {
      Cell(buf[(r * COLS + c) * 2], buf[(r * COLS + c) * 2 + 1])
    }

    /** The buffer shows the last 25 rows of the transcript. */
    ghost predicate Shows(rows: seq<Row>)
      requires buf.Length == 2 * COLS * ROWS && ROWS <= |rows| && forall i :: 0 <= i < |rows| ==> |rows[i]| == COLS
      reads buf
    {
      forall c: nat, r: nat :: c < COLS && r < ROWS ==> CellAt(c, r) == rows[|rows| - ROWS + r][c]
    }

    ghost predicate Valid()
      reads this, buf
    {
      && buf.Length == 2 * COLS * ROWS && terminal.Valid()
      && col == terminal.col && row == terminal.row && attr == terminal.attr
      && Shows(terminal.rows)
    }

    /** The buffer's layout: 160 bytes a row, a character and its attribute for each cell. */
    lemma OnScreen(c: nat, r: nat)
      requires Valid() && c < 80 && r < 25
      ensures buf.Length == 4000 && |terminal.rows| >= 25 && |terminal.rows[|terminal.rows| - 25 + r]| == 80
      ensures buf[160 * r + 2 * c] == terminal.rows[|terminal.rows| - 25 + r][c].ch
      ensures buf[160 * r + 2 * c + 1] == terminal.rows[|terminal.rows| - 25 + r][c].attr
    {
      assert CellAt(c, r) == terminal.rows[|terminal.rows| - 25 + r][c];
    }

    /** Byte `i` of the buffer is the character or the attribute of a cell. */
    static lemma ByteOfCell(i: nat) returns (c: nat, r: nat)
      requires i < 4000
      ensures c < 80 && r < 25 && (i == 160 * r + 2 * c || i == 160 * r + 2 * c + 1)
    {
      r, c := i / 160, i % 160 / 2;
    }

    constructor (buf: array<nat>, attr: nat)
      requires buf.Length == 2 * COLS * ROWS
      modifies buf
      ensures Valid() && this.buf == buf && terminal == Terminal(seq(ROWS, _ => BlankRow(attr)), 0, 0, attr)
    {
      this.buf, this.attr, col, row := buf, attr, 0, 0;
      terminal := Terminal(seq(ROWS, _ => BlankRow(attr)), 0, 0, attr);
      new;
      ClearCells();
    }

    /** One cell's two bytes have been stored, no other byte. */
    static ghost predicate CellWritten(was: seq<nat>, now: seq<nat>, c: nat, r: nat, cell: Cell) {
      && |was| == |now| == 4000 && c < 80 && r < 25
      && now == was[160 * r + 2 * c := cell.ch][160 * r + 2 * c + 1 := cell.attr]
    }

    method WriteCell(c: nat, r: nat, cell: Cell)
      requires buf.Length == 2 * COLS * ROWS && c < COLS && r < ROWS
      modifies buf
      ensures CellAt(c, r) == cell
      ensures forall d: nat, s: nat :: d < COLS && s < ROWS && (d != c || s != r) ==> CellAt(d, s) == old(CellAt(d, s))
      ensures CellWritten(old(buf[..]), buf[..], c, r, cell)
    {
      var offset := (r * COLS + c) * 2;
      buf[offset] := cell.ch;
      buf[offset + 1] := cell.attr;
    }

    method ClearCells()
      requires buf.Length == 2 * COLS * ROWS
      modifies buf
      ensures forall c: nat, r: nat :: c < COLS && r < ROWS ==> CellAt(c, r) == Blank(attr)
    {
      hide CellWritten;
      for r := 0 to ROWS
        invariant forall d: nat, s: nat :: d < COLS && s < r ==> CellAt(d, s) == Blank(attr)
      {
        for c := 0 to COLS
          invariant forall d: nat, s: nat :: d < COLS && s < r ==> CellAt(d, s) == Blank(attr)
          invariant forall d: nat :: d < c ==> CellAt(d, r) == Blank(attr)
        {
          WriteCell(c, r, Blank(attr));
        }
      }
    }

    /** Rows move up by one, in place, from the top; the last row becomes blank. */
    method ScrollUp()
      requires buf.Length == 2 * COLS * ROWS
      modifies buf
      ensures forall c: nat, r: nat :: c < COLS && r < ROWS - 1 ==> CellAt(c, r) == old(CellAt(c, r + 1))
      ensures forall c: nat, r: nat :: c < COLS && r == ROWS - 1 ==> CellAt(c, r) == Blank(attr)
    {
      hide CellWritten;
      for r := 1 to ROWS
        invariant forall d: nat, s: nat :: d < COLS && s < r - 1 ==> CellAt(d, s) == old(CellAt(d, s + 1))
        invariant forall d: nat, s: nat :: d < COLS && r <= s < ROWS ==> CellAt(d, s) == old(CellAt(d, s))
      {
        MoveRowUp(r);
      }
      for c := 0 to COLS
        invariant forall d: nat, s: nat :: d < COLS && s < ROWS - 1 ==> CellAt(d, s) == old(CellAt(d, s + 1))
        invariant forall d: nat, s: nat :: d < c && s == ROWS - 1 ==> CellAt(d, s) == Blank(attr)
      {
        WriteCell(c, ROWS - 1, Blank(attr));
      }
    }

    /** The inner loop of the copy. */
    method MoveRowUp(r: nat)
      requires buf.Length == 2 * COLS * ROWS && 0 < r < ROWS
      modifies buf
      ensures forall d: nat :: d < COLS ==> CellAt(d, r - 1) == old(CellAt(d, r))
      ensures forall d: nat, s: nat :: d < COLS && s < ROWS && s != r - 1 ==> CellAt(d, s) == old(CellAt(d, s))
    {
      hide CellWritten;
      for c := 0 to COLS
        invariant forall d: nat :: d < c ==> CellAt(d, r - 1) == old(CellAt(d, r))
        invariant forall d: nat, s: nat :: d < COLS && s < ROWS && s != r - 1 ==> CellAt(d, s) == old(CellAt(d, s))
      {
        WriteCell(c, r - 1, CellAt(c, r));
      }
    }

    method Newline()
      requires Valid()
      modifies this, buf
      ensures Valid() && terminal == old(terminal).Newline()
      ensures col == 0 && row == (if old(row) < 24 then old(row) + 1 else 24) && attr == old(attr)
      ensures old(row) < 24 ==> buf[..] == old(buf[..])
      ensures old(row) == 24 ==> ScrolledBytes(old(buf[..]), buf[..], attr)
    {
      ghost var t := terminal;
      col := 0;
      if row + 1 >= ROWS {
        ScrollUp();
        row := ROWS - 1;
        Scrolled(t);
        RawScrolled();
      } else {
        row := row + 1;
      }
      terminal := t.Newline();
    }

    /** The buffer's bytes have moved up by a row; the last row is blank. */
    static ghost predicate ScrolledBytes(was: seq<nat>, now: seq<nat>, attr: nat) {
      && |was| == |now| == 4000
      && (forall i :: 0 <= i < 3840 ==> now[i] == was[i + 160])
      && (forall i :: 3840 <= i < 4000 ==> now[i] == if i % 2 == 0 then 0x20 else attr)
    }

    twostate lemma RawScrolled()
      requires buf.Length == 2 * COLS * ROWS
      requires forall c: nat, r: nat :: c < COLS && r < ROWS - 1 ==> CellAt(c, r) == old(CellAt(c, r + 1))
      requires forall c: nat, r: nat :: c < COLS && r == ROWS - 1 ==> CellAt(c, r) == Blank(attr)
      ensures ScrolledBytes(old(buf[..]), buf[..], attr)
    {
      forall i | 0 <= i < 4000
        ensures i < 3840 ==> buf[i] == old(buf[i + 160])
        ensures i >= 3840 ==> buf[i] == if i % 2 == 0 then 0x20 else attr
      {
        var c, r := ByteOfCell(i);
        if r < 24 {
          assert CellAt(c, r) == old(CellAt(c, r + 1));
        } else {
          assert CellAt(c, r) == Blank(attr);
        }
      }
    }

    /** The screen after scrolling shows the transcript with a blank row added. */
    twostate lemma Scrolled(t: Terminal)
      requires buf.Length == 2 * COLS * ROWS && t.Valid() && t.row + 1 >= ROWS && old(Shows(t.rows))
      requires forall c: nat, r: nat :: c < COLS && r < ROWS - 1 ==> CellAt(c, r) == old(CellAt(c, r + 1))
      requires forall c: nat, r: nat :: c < COLS && r == ROWS - 1 ==> CellAt(c, r) == Blank(t.attr)
      ensures t.Newline().Valid() && Shows(t.Newline().rows)
    {
      var rows, rows' := t.rows, t.Newline().rows;
      forall c: nat, r: nat | c < COLS && r < ROWS
        ensures CellAt(c, r) == rows'[|rows'| - ROWS + r][c]
      {
        if r < ROWS - 1 {
          assert old(CellAt(c, r + 1)) == rows[|rows| - ROWS + (r + 1)][c];
        }
      }
    }

    method AdvanceCursor()
      requires Valid()
      modifies this, buf
      ensures Valid() && terminal == old(terminal).Advance() && attr == old(attr)
      ensures old(col) < 79 ==> col == old(col) + 1 && row == old(row) && buf[..] == old(buf[..])
      ensures old(col) == 79 ==> col == 0 && row == if old(row) < 24 then old(row) + 1 else 24
    {
      if col + 1 >= COLS {
        Newline();
      } else {
        col := col + 1;
        terminal := terminal.Advance();
      }
    }

    method PutCell(cell: Cell)
      requires Valid()
      modifies this`terminal, buf
      ensures Valid() && terminal == old(terminal).Put(cell)
      ensures CellWritten(old(buf[..]), buf[..], col, row, cell)
    {
      hide CellWritten;
      WriteCell(col, row, cell);
      terminal := terminal.Put(cell);
    }

    method WriteByte(byte: nat)
      requires Valid()
      modifies this, buf
      ensures Valid() && terminal == old(terminal).WriteByte(byte) && attr == old(attr)
      ensures byte == 0x0A ==> col == 0 && row == if old(row) < 24 then old(row) + 1 else 24
      ensures byte == 0x0D ==> col == 0 && row == old(row) && buf[..] == old(buf[..])
      ensures byte == 0x08 ==>
                && col == (if old(col) > 0 then old(col) - 1 else 0) && row == old(row)
                && CellWritten(old(buf[..]), buf[..], col, row, Cell(0x20, attr))
      ensures Printable(byte) && old(col) < 79 ==>
                && col == old(col) + 1 && row == old(row)
                && CellWritten(old(buf[..]), buf[..], old(col), row, Cell(byte, attr))
      ensures Printable(byte) && old(col) == 79 ==> col == 0 && row == if old(row) < 24 then old(row) + 1 else 24
    {
      hide CellWritten;
      if byte == 0x0A {
        Newline();
      } else if byte == 0x0D {
        col := 0;
        terminal := terminal.(col := 0);
      } else if byte == 0x08 {
        if col > 0 {
          col := col - 1;
        }
        terminal := terminal.(col := col);
        PutCell(Blank(attr));
      } else {
        PutCell(Cell(byte, attr));
        AdvanceCursor();
      }
    }

    method Clear()
      requires Valid()
      modifies this, buf
      ensures Valid() && terminal == old(terminal).Clear()
      ensures col == 0 && row == 0 && attr == old(attr) && |terminal.rows| == 25
      ensures forall c: nat, r: nat :: c < 80 && r < 25 ==> CellOf(terminal, r, c) == Cell(0x20, attr)
    {
      ClearCells();
      col := 0;
      row := 0;
      terminal := terminal.Clear();
    }

    method SetCursor(c: nat, r: nat)
      requires Valid()
      modifies this`col, this`row, this`terminal
      ensures Valid() && terminal == old(terminal).SetCursor(c, r)
      ensures col == (if c < 79 then c else 79) && row == (if r < 24 then r else 24)
      ensures terminal.rows == old(terminal.rows) && terminal.attr == old(terminal.attr)
    {
      col := if c < COLS - 1 then c else COLS - 1;
      row := if r < ROWS - 1 then r else ROWS - 1;
      terminal := terminal.SetCursor(c, r);
    }

    method SetColor(newAttr: nat)
      requires Valid()
      modifies this`attr, this`terminal
      ensures Valid() && terminal == old(terminal).(attr := newAttr) && attr == newAttr
    {
      attr := newAttr;
      terminal := terminal.(attr := newAttr);
    }

    /** Whatever the driver is asked to do, the screen shows the end of the transcript, in bounds. */
    method Execute(commands: seq<Command>)
      requires Valid()
      modifies this, buf
      ensures Valid() && terminal == Run(old(terminal), commands)
    {
      var rest := commands;
      while rest != []
        invariant Valid() && Run(terminal, rest) == Run(old(terminal), commands)
        decreases |rest|
      {
        match rest[0] {
          case Byte(b) => WriteByte(b);
          case Cursor(c, r) => SetCursor(c, r);
          case Color(a) => SetColor(a);
          case ClearScreen => Clear();
        }
        rest := rest[1..];
      }
    }
  }
}
