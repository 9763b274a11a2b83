// The text console as values: the 80x25 screen, the cursor, the colour attributes, and what
// sys_write_console does to them character by character and command by command.

module ConsoleSpec {
  import opened Decimal

  const COLUMNS: nat := 80
  const ROWS: nat := 25
  const CELLS: nat := COLUMNS * ROWS
  const MAX_PARAMS: nat := 3

  // Text colours of io.h
  const BLACK: nat := 0
  const BLUE: nat := 1
  const GREEN: nat := 2
  const CYAN: nat := 3
  const RED: nat := 4
  const MAGENTA: nat := 5
  const BROWN: nat := 6
  const LIGHT_GRAY: nat := 7
  const DARK_GRAY: nat := 8
  const LIGHT_BLUE: nat := 9
  const LIGHT_GREEN: nat := 10
  const LIGHT_CYAN: nat := 11
  const LIGHT_RED: nat := 12
  const LIGHT_MAGENTA: nat := 13
  const YELLOW: nat := 14
  const WHITE: nat := 15

  /** A blank cell as scroll_screen and erase_current_char write it. */
  const BLANK: nat := 0x0200

  datatype Con = Con(screen: seq<nat>, x: nat, y: nat, fg: nat, bg: nat, blink: nat, bright: nat)

  /** The screen has its size and the cursor is on it. */
  ghost predicate OnScreen(c: Con) {
    |c.screen| == CELLS && c.x < COLUMNS && c.y < ROWS
  }

  /** The attributes every sys_write_console starts with. */
  function Defaults(c: Con): Con {
    c.(fg := GREEN, bg := BLACK, blink := 0, bright := 1)
  }

  // ---------- io.c

  /** The cell of a character in the given colours. */
  function Cell(ch: char, fg: nat, bg: nat, blink: nat): nat {
    ch as int % 256 + 256 * ((if blink != 0 then 128 else 0) + bg % 8 * 16 + fg % 16)
  }

  /** A write to the screen; positions past its end are other memory. */
  function Put(screen: seq<nat>, at: nat, cell: nat): (r: seq<nat>)
    ensures |r| == |screen|
  {
    if at < |screen| then screen[at := cell] else screen
  }

  /** scroll_screen */
  function Scrolled(screen: seq<nat>): (r: seq<nat>)
    requires |screen| == CELLS
    ensures |r| == CELLS
  {
    screen[COLUMNS..] + seq(COLUMNS, i => BLANK)
  }

  function NewLine(c: Con): (r: Con)
    requires |c.screen| == CELLS
    ensures |r.screen| == CELLS
  {
    if c.y + 1 >= ROWS then c.(x := 0, screen := Scrolled(c.screen)) else c.(x := 0, y := c.y + 1)
  }

  /** printc_color with the current attributes. */
  function Print(c: Con, ch: char): (r: Con)
    requires |c.screen| == CELLS
    ensures |r.screen| == CELLS
  {
    if ch == '\n' then NewLine(c)
    else
      var x := (c.x + 1) % 256;
      var c1 := c.(screen := Put(c.screen, c.y * COLUMNS + c.x, Cell(ch, c.fg, c.bg, c.blink)), x := x);
      if x >= COLUMNS then NewLine(c1) else c1
  }

  /** erase_current_char: the column is an unsigned byte, so it never tests negative. */
  function Erase(c: Con): (r: Con)
    ensures |r.screen| == |c.screen|
  {
    var x := (c.x + 255) % 256;
    c.(x := x, screen := Put(c.screen, c.y * COLUMNS + x, BLANK))
  }

  /** set_cursor: the range test is on the old position. */
  function SetCursor(c: Con, x: nat, y: nat): Con {
    if c.x >= COLUMNS || c.y >= ROWS then c else c.(x := x % 256, y := y % 256)
  }

  // ---------- devices.c

  /** set_attribute; the dim case of 35 changes nothing in the source. */
  function SetAttribute(c: Con, a: nat): Con {
    var b := c.bright != 0;
    match a
    case 0 => Defaults(c)
    case 1 => c.(bright := 1)
    case 2 => c.(bright := 0)
    case 5 => c.(blink := if c.blink == 0 then 1 else 0)
    case 7 => c.(fg := BLACK, bg := GREEN)
    case 8 => c.(fg := BLACK)
    case 30 => c.(fg := if b then DARK_GRAY else BLACK)
    case 31 => c.(fg := if b then LIGHT_RED else RED)
    case 32 => c.(fg := if b then LIGHT_GREEN else GREEN)
    case 33 => c.(fg := if b then YELLOW else BROWN)
    case 34 => c.(fg := if b then LIGHT_BLUE else BLUE)
    case 35 => if b then c.(fg := LIGHT_MAGENTA) else c
    case 36 => c.(fg := if b then LIGHT_CYAN else CYAN)
    case 37 => c.(fg := if b then WHITE else LIGHT_GRAY)
    case 40 => c.(bg := if b then DARK_GRAY else BLACK)
    case 41 => c.(bg := if b then LIGHT_RED else RED)
    case 42 => c.(bg := if b then LIGHT_GREEN else GREEN)
    case 43 => c.(bg := if b then YELLOW else BROWN)
    case 44 => c.(bg := if b then LIGHT_BLUE else BLUE)
    case 45 => c.(bg := if b then LIGHT_MAGENTA else MAGENTA)
    case 46 => c.(bg := if c.bright == 1 then LIGHT_CYAN else CYAN)
    case 47 => c.(bg := if b then LIGHT_GRAY else WHITE)
    case _ => c
  }

  function SetAttributes(c: Con, params: seq<nat>): (r: Con)
    ensures r.screen == c.screen && r.x == c.x && r.y == c.y
    decreases params
  {
    if params == [] then c else SetAttributes(SetAttribute(c, params[0]), params[1..])
  }

  /** is_letter */
  predicate IsLetter(ch: char) {
    'a' <= ch <= 'z' || 'A' <= ch <= 'Z'
  }

  /** The commands execute_command carries out. */
  predicate Known(op: char, n: nat) {
    op == 'D' || op == 'K' || ((op == 'H' || op == 'f') && n != 1) || (op == 'm' && 1 <= n <= 3)
  }

  function Execute(c: Con, op: char, params: seq<nat>): (r: Con)
    requires |c.screen| == CELLS && Known(op, |params|)
    ensures |r.screen| == CELLS
  {
    if op == 'D' then c.(screen := Scrolled(c.screen))
    else if op == 'K' then Erase(c)
    else if op == 'm' then SetAttributes(c, params)
    else if params == [] then SetCursor(c, 0, 0)
    else SetCursor(c, params[0], params[1])
  }

  /** Printing the characters of a rejected command. */
  function PrintAll(c: Con, s: seq<char>): (r: Con)
    requires |c.screen| == CELLS
    ensures |r.screen| == CELLS
    decreases s
  {
    if s == [] then c else PrintAll(Print(c, s[0]), s[1..])
  }

  // ---------- sys_write_console

  /** The console and the count of plain characters; rejected commands add nothing to the count. */
  datatype Out = Out(con: Con, written: nat)

  ghost predicate Sized(o: Out) {
    |o.con.screen| == CELLS
  }

  /** The outer loop, from position i. */
  function Plain(o: Out, buf: seq<char>, i: nat): (r: Out)
    requires Sized(o)
    ensures Sized(r)
    decreases |buf| - i, 0
  {
    if i >= |buf| then o
    else if buf[i] == '[' then Command(o, buf, i + 1, i + 1, i + 1, [])
    else Plain(Out(Print(o.con, buf[i]), o.written + 1), buf, i + 1)
  }

  function WithParam(buf: seq<char>, param: nat, i: nat, params: seq<nat>): (r: seq<nat>)
    requires i <= |buf| && |params| <= MAX_PARAMS
    ensures |r| <= MAX_PARAMS
  {
    if i > param && |params| < MAX_PARAMS then params + [Value(buf[param..i])] else params
  }

  /** The inner loop: a command that began at start, its current parameter at param, from position i. */
  function Command(o: Out, buf: seq<char>, start: nat, param: nat, i: nat, params: seq<nat>): (r: Out)
    requires Sized(o) && start <= i && |params| <= MAX_PARAMS
    ensures Sized(r)
    decreases |buf| - i, 1
  {
    if i >= |buf| then o
    else if IsDigit(buf[i]) then Command(o, buf, start, param, i + 1, params)
    else if buf[i] == ';' then
      var more := WithParam(buf, param, i, params);
      Command(o, buf, start, if more == params then param else i + 1, i + 1, more)
    else
      var all := WithParam(buf, param, i, params);
      if IsLetter(buf[i]) && Known(buf[i], |all|)
      then Plain(o.(con := Execute(o.con, buf[i], all)), buf, i + 1)
      else Plain(o.(con := PrintAll(o.con, buf[start..i + 1])), buf, i + 1)
  }

  /** sys_write_console */
  function Write(c: Con, buf: seq<char>): (r: Out)
    requires |c.screen| == CELLS
    ensures Sized(r)
  {
    Plain(Out(Defaults(c), 0), buf, 0)
  }
}
