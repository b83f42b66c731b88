/**
 * The VGA text console: an 80 x 25 grid of (character, colour) cells, stored row by
 * row, with a cursor position and a current colour. Each operation is given as a pure
 * function on the console state; the loops that touch many cells are methods shown to
 * compute the same state.
 */
module Console {
  import opened Common

  const NUM_COLS: nat := 80
  const NUM_ROWS: nat := 25
  const CELLS: nat := NUM_COLS * NUM_ROWS

  const COLOR_BLACK: Byte := 0
  const COLOR_WHITE: Byte := 15
  const NEWLINE: Byte := 10
  const SPACE: Byte := 32

  datatype Cell = Cell(character: Byte, color: Byte)

  datatype Console = Console(buffer: seq<Cell>, row: nat, col: nat, color: Byte)
  {
    /** The cursor never leaves the screen; `col == NUM_COLS` means "wrap before the next character". */
    predicate Valid() {
      |buffer| == CELLS && row < NUM_ROWS && col <= NUM_COLS
    }
  }

  /** Position of cell (row, col) in the buffer. */
  function Index(row: nat, col: nat): nat {
    col + NUM_COLS * row
  }

  function Blank(color: Byte): Cell {
    Cell(SPACE, color)
  }

  /** The colour byte: foreground in the low nibble, background above it, truncated to a byte. */
  function Attribute(foreground: Byte, background: Byte): (a: Byte)
    ensures a % 16 == foreground % 16
    ensures foreground < 16 && background < 16 ==> a / 16 == background
  {
    var x := foreground as int + background as int * 16;
    var q := x / 256;
    NibbleShift(foreground, background - 16 * q);
    x % 256
  }

  lemma NibbleShift(low: int, m: int)
    ensures (low + 16 * m) % 16 == low % 16
  {
    var d := (low + 16 * m) / 16 - low / 16 - m;
    assert 16 * d == low % 16 - (low + 16 * m) % 16;
  }

  /** The state at boot: cursor at the top left, white on black. */
  function Boot(buffer: seq<Cell>): (c: Console)
    requires |buffer| == CELLS
    ensures c.Valid() && c.row == 0 && c.col == 0
    ensures c.color == 0x0F && c.color % 16 == COLOR_WHITE && c.color / 16 == COLOR_BLACK
  {
    Console(buffer, 0, 0, Attribute(COLOR_WHITE, COLOR_BLACK))
  }

  /** Every cell the console writes is inside the 2000-cell buffer. */
  lemma IndexOnScreen(row: nat, col: nat)
    requires row < NUM_ROWS && col < NUM_COLS
    ensures Index(row, col) < CELLS
  {
  }

  /** The value sent to the cursor registers; it never exceeds the cell count, so it fits 16 bits. */
  function CursorPos(c: Console): (pos: nat)
    requires c.Valid()
    ensures pos <= CELLS
    ensures c.col < NUM_COLS ==> pos / NUM_COLS == c.row && pos % NUM_COLS == c.col
  {
    c.row * NUM_COLS + c.col
  }

  /** The buffer moved up one row, with a blank last row. */
  function Scrolled(buffer: seq<Cell>, color: Byte): (b: seq<Cell>)
    requires |buffer| == CELLS
    ensures |b| == CELLS
    ensures forall k :: 0 <= k < Index(NUM_ROWS - 1, 0) ==> b[k] == buffer[k + NUM_COLS]
    ensures forall k :: Index(NUM_ROWS - 1, 0) <= k < CELLS ==> b[k] == Blank(color)
  {
    buffer[NUM_COLS..] + seq(NUM_COLS, _ => Blank(color))
  }

  /**
   * `print_newline`: back to column 0 and down one row; on the last row the screen
   * scrolls instead and the cursor stays there.
   */
  function Newline(c: Console): (r: Console)
    requires c.Valid()
    ensures r.Valid() && r.col == 0 && r.color == c.color
    ensures c.row < NUM_ROWS - 1 ==> r.row == c.row + 1 && r.buffer == c.buffer
    ensures c.row == NUM_ROWS - 1 ==> r.row == c.row && r.buffer == Scrolled(c.buffer, c.color)
  {
    if c.row < NUM_ROWS - 1 then c.(col := 0, row := c.row + 1)
    else c.(col := 0, buffer := Scrolled(c.buffer, c.color))
  }

  /**
   * `print_char`: a newline character only moves the cursor. Any other character first
   * wraps to a new line when the row is full, then fills the cursor cell and advances;
   * no other cell changes.
   */
  function PrintChar(c: Console, ch: Byte): (r: Console)
    requires c.Valid()
    ensures r.Valid() && r.color == c.color
    ensures ch == NEWLINE ==> r == Newline(c)
    ensures ch != NEWLINE ==>
      var w := if c.col >= NUM_COLS then Newline(c) else c;
      w.col < NUM_COLS && r.row == w.row && r.col == w.col + 1 &&
      |r.buffer| == CELLS && r.buffer[Index(w.row, w.col)] == Cell(ch, c.color) &&
      forall k :: 0 <= k < CELLS && k != Index(w.row, w.col) ==> r.buffer[k] == w.buffer[k]
  {
    if ch == NEWLINE then Newline(c)
    else
      var w := if c.col >= NUM_COLS then Newline(c) else c;
      w.(buffer := w.buffer[Index(w.row, w.col) := Cell(ch, c.color)], col := w.col + 1)
  }

  /** The characters of `s` printed one after another. */
  function PrintStr(c: Console, s: seq<Byte>): (r: Console)
    requires c.Valid()
    ensures r.Valid() && r.color == c.color
    decreases |s|
  {
    if |s| == 0 then c else PrintStr(PrintChar(c, s[0]), s[1..])
  }

  /**
   * Text without newlines that fits the rest of the row lands in consecutive cells of
   * that row, leaves every other cell alone, and moves the cursor past it.
   */
  lemma {:induction false} PrintStrOnRow(c: Console, s: seq<Byte>)
    requires c.Valid() && c.col + |s| <= NUM_COLS
    requires forall i :: 0 <= i < |s| ==> s[i] != NEWLINE
    ensures var r := PrintStr(c, s);
      r.row == c.row && r.col == c.col + |s| &&
      (forall i :: 0 <= i < |s| ==> r.buffer[Index(c.row, c.col + i)] == Cell(s[i], c.color)) &&
      (forall k :: 0 <= k < CELLS && !(Index(c.row, c.col) <= k < Index(c.row, c.col + |s|)) ==>
         r.buffer[k] == c.buffer[k])
    decreases |s|
  {
    if |s| > 0 {
      var c' := PrintChar(c, s[0]);
      PrintStrOnRow(c', s[1..]);
      var r := PrintStr(c', s[1..]);
      forall i | 0 <= i < |s|
        ensures r.buffer[Index(c.row, c.col + i)] == Cell(s[i], c.color)
      {
        if i > 0 {
          assert s[1..][i - 1] == s[i];
        }
      }
    }
  }

  /** `print_set_color`. */
  function SetColor(c: Console, foreground: Byte, background: Byte): (r: Console)
    ensures r.color == Attribute(foreground, background)
    ensures r.buffer == c.buffer && r.row == c.row && r.col == c.col
  {
    c.(color := Attribute(foreground, background))
  }

  /**
   * `print_backspace`: nothing at the top-left corner; otherwise the cursor moves back
   * one cell, to the end of the previous row from column 0, and that cell is blanked.
   */
  function Backspace(c: Console): (r: Console)
    requires c.Valid()
    ensures r.Valid() && r.color == c.color
    ensures c.row == 0 && c.col == 0 ==> r == c
    ensures c.col == 0 && c.row > 0 ==> r.row == c.row - 1 && r.col == NUM_COLS - 1
    ensures c.col > 0 ==> r.row == c.row && r.col == c.col - 1
    ensures !(c.row == 0 && c.col == 0) ==>
      r.col < NUM_COLS && r.buffer[Index(r.row, r.col)] == Blank(c.color) &&
      forall k :: 0 <= k < CELLS && k != Index(r.row, r.col) ==> r.buffer[k] == c.buffer[k]
  {
    if c.col == 0 && c.row == 0 then c
    else
      var (row, col) := if c.col == 0 then (c.row - 1, NUM_COLS - 1) else (c.row, c.col - 1);
      Console(c.buffer[Index(row, col) := Blank(c.color)], row, col, c.color)
  }

  /** Backspace right after a character on the same row blanks that character's cell again. */
  lemma BackspaceUndoesPosition(c: Console, ch: Byte)
    requires c.Valid() && c.col < NUM_COLS && ch != NEWLINE
    ensures var r := Backspace(PrintChar(c, ch));
      r.row == c.row && r.col == c.col && r.buffer == c.buffer[Index(c.row, c.col) := Blank(c.color)]
  {
    var p := PrintChar(c, ch);
    assert p.buffer == c.buffer[Index(c.row, c.col) := Cell(ch, c.color)];
  }

  // ---------------------------------------------------------------------------
  // The cell loops

  /** `clear_row`: blanks the 80 cells of one row and nothing else. */
  method ClearRow(buffer: seq<Cell>, row: nat, color: Byte) returns (b: seq<Cell>)
    requires |buffer| == CELLS && row < NUM_ROWS
    ensures |b| == CELLS
    ensures forall k :: 0 <= k < CELLS ==>
      b[k] == if Index(row, 0) <= k < Index(row + 1, 0) then Blank(color) else buffer[k]
  {
    b := buffer;
    var col := 0;
    while col < NUM_COLS
      invariant 0 <= col <= NUM_COLS && |b| == CELLS
      invariant forall k :: 0 <= k < CELLS ==>
        b[k] == if Index(row, 0) <= k < Index(row, col) then Blank(color) else buffer[k]
    {
      b := b[Index(row, col) := Blank(color)];
      col := col + 1;
    }
  }

  /** `print_clear`: every cell blank in the current colour, cursor at the top left. */
  method PrintClear(c: Console) returns (r: Console)
    requires c.Valid()
    ensures r.Valid() && r.row == 0 && r.col == 0 && r.color == c.color
    ensures forall k :: 0 <= k < CELLS ==> r.buffer[k] == Blank(c.color)
  {
    var b := c.buffer;
    var i := 0;
    while i < NUM_ROWS
      invariant 0 <= i <= NUM_ROWS && |b| == CELLS
      invariant forall k :: 0 <= k < Index(i, 0) ==> b[k] == Blank(c.color)
    {
      b := ClearRow(b, i, c.color);
      i := i + 1;
    }
    r := Console(b, 0, 0, c.color);
  }

  /** The scroll loop: each row copied one row up, in increasing order, then the last row cleared. */
  method ScrollUp(buffer: seq<Cell>, color: Byte) returns (b: seq<Cell>)
    requires |buffer| == CELLS
    ensures b == Scrolled(buffer, color)
  {
    b := buffer;
    var r := 1;
    while r < NUM_ROWS
      invariant 1 <= r <= NUM_ROWS && |b| == CELLS
      invariant forall k :: 0 <= k < Index(r - 1, 0) ==> b[k] == buffer[k + NUM_COLS]
      invariant forall k :: Index(r - 1, 0) <= k < CELLS ==> b[k] == buffer[k]
    {
      b := CopyRowUp(buffer, b, r);
      r := r + 1;
    }
    b := ClearRow(b, NUM_ROWS - 1, color);
    assert forall k :: 0 <= k < CELLS ==> b[k] == Scrolled(buffer, color)[k];
  }

  /** The inner scroll loop: row `r` copied cell by cell onto row `r - 1`. */
  method CopyRowUp(buffer: seq<Cell>, b0: seq<Cell>, r: nat) returns (b: seq<Cell>)
    requires |buffer| == CELLS && |b0| == CELLS && 1 <= r < NUM_ROWS
    requires forall k :: 0 <= k < Index(r - 1, 0) ==> b0[k] == buffer[k + NUM_COLS]
    requires forall k :: Index(r - 1, 0) <= k < CELLS ==> b0[k] == buffer[k]
    ensures |b| == CELLS
    ensures forall k :: 0 <= k < Index(r, 0) ==> b[k] == buffer[k + NUM_COLS]
    ensures forall k :: Index(r, 0) <= k < CELLS ==> b[k] == buffer[k]
  {
    b := b0;
    var col := 0;
    while col < NUM_COLS
      invariant 0 <= col <= NUM_COLS && |b| == CELLS
      invariant forall k :: 0 <= k < Index(r - 1, col) ==> b[k] == buffer[k + NUM_COLS]
      invariant forall k :: Index(r - 1, col) <= k < CELLS ==> b[k] == buffer[k]
    {
      b := b[Index(r - 1, col) := b[Index(r, col)]];
      col := col + 1;
    }
    assert Index(r - 1, NUM_COLS) == Index(r, 0);
  }

  /** `print_newline` with its loops. */
  method PrintNewline(c: Console) returns (r: Console)
    requires c.Valid()
    ensures r == Newline(c)
  {
    if c.row < NUM_ROWS - 1 {
      r := c.(col := 0, row := c.row + 1);
    } else {
      var b := ScrollUp(c.buffer, c.color);
      r := c.(col := 0, buffer := b);
    }
  }

  /** `puts`: the characters of a C string, then a newline. */
  method Puts(c: Console, str: seq<Byte>) returns (r: Console)
    requires c.Valid()
    requires forall i :: 0 <= i < |str| ==> str[i] != 0
    ensures r == PrintStr(c, str + [NEWLINE])
  {
    r := c;
    var i := 0;
    while i < |str|
      invariant 0 <= i <= |str| && r.Valid()
      invariant PrintStr(r, str[i..] + [NEWLINE]) == PrintStr(c, str + [NEWLINE])
    {
      assert (str[i..] + [NEWLINE])[1..] == str[i + 1..] + [NEWLINE];
      r := PrintChar(r, str[i]);
      i := i + 1;
    }
    assert PrintStr(r, [NEWLINE]) == PrintChar(r, NEWLINE);
    r := PrintChar(r, NEWLINE);
  }
}
