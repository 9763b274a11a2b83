// The console of lab/zeos/io.c and lab/zeos/devices.c on its screen array, and the command printer of
// lab/zeos/graphics.c on its format buffer.

module Consoles {
  import opened Decimal
  import opened ConsoleSpec
  import opened Framebuffer
  import opened Texts

  class Console {
    const screen: array<nat>
    var x: nat
    var y: nat
    var fg: nat
    var bg: nat
    var blink: nat
    var bright: nat

    ghost predicate Valid() {
      screen.Length == CELLS
    }

    ghost function Abs(): (c: Con)
      requires Valid()
      reads this, screen
      ensures |c.screen| == CELLS
    {
      Con(screen[..], x, y, fg, bg, blink, bright)
    }

    constructor ()
      ensures Valid() && fresh(screen) && x == 0 && y == 19
    {
      screen := new nat[CELLS];
      x, y, fg, bg, blink, bright := 0, 19, GREEN, BLACK, 0, 1;
    }

    // ---------- io.c

    /** scroll_screen */
    method ScrollScreen()
      requires Valid()
      modifies screen
      ensures screen[..] == Scrolled(old(screen[..]))
    {
      for i := 1 to ROWS
        invariant forall k :: 0 <= k < (i - 1) * COLUMNS ==> screen[k] == old(screen[k + COLUMNS])
        invariant forall k :: (i - 1) * COLUMNS <= k < CELLS ==> screen[k] == old(screen[k])
      {
        CopyLineUp(i);
      }
      BlankLastLine();
    }

    method BlankLastLine()
      requires Valid()
      modifies screen
      ensures forall k :: 0 <= k < CELLS ==> screen[k] == if k < CELLS - COLUMNS then old(screen[k]) else BLANK
    {
      for j := 0 to COLUMNS
        invariant forall k :: 0 <= k < CELLS ==>
                    screen[k] == if CELLS - COLUMNS <= k < CELLS - COLUMNS + j then BLANK else old(screen[k])
      {
        screen[CELLS - COLUMNS + j] := BLANK;
      }
    }

    /** prev_line[j] = curr_line[j] for a whole line. */
    method CopyLineUp(i: nat)
      requires Valid() && 1 <= i < ROWS
      modifies screen
      ensures forall k :: 0 <= k < CELLS ==>
                screen[k] == if (i - 1) * COLUMNS <= k < i * COLUMNS then old(screen[k + COLUMNS]) else old(screen[k])
    {
      var prev, curr := (i - 1) * COLUMNS, i * COLUMNS;
      for j := 0 to COLUMNS
        invariant forall k :: 0 <= k < CELLS ==>
                    screen[k] == if prev <= k < prev + j then old(screen[k + COLUMNS]) else old(screen[k])
      {
        screen[prev + j] := screen[curr + j];
      }
    }

    method WriteCell(at: nat, cell: nat)
      requires Valid()
      modifies screen
      ensures screen[..] == Put(old(screen[..]), at, cell)
    {
      if at < screen.Length {
        screen[at] := cell;
      }
    }

    /** The end of a line: down one row, or scroll. */
    method StartNewLine()
      requires Valid()
      modifies this`x, this`y, screen
      ensures Abs() == NewLine(old(Abs()))
    {
      x := 0;
      if y + 1 >= ROWS {
        ScrollScreen();
      } else {
        y := y + 1;
      }
    }

    /** printc_color with the current attributes. */
    method PrintcColor(ch: char)
      requires Valid()
      modifies this`x, this`y, screen
      ensures Abs() == Print(old(Abs()), ch)
      ensures OnScreen(old(Abs())) ==> Depicts(Abs(), old(Abs()), [ch])
    {
      OneCharacter(Abs(), ch);
      if ch == '\n' {
        StartNewLine();
      } else {
        WriteCell(y * COLUMNS + x, Cell(ch, fg, bg, blink));
        x := (x + 1) % 256;
        if x >= COLUMNS {
          StartNewLine();
        }
      }
    }

    /** erase_current_char */
    method EraseCurrentChar()
      requires Valid()
      modifies this`x, screen
      ensures Abs() == Erase(old(Abs()))
    {
      x := (x + 255) % 256;
      WriteCell(y * COLUMNS + x, BLANK);
    }

    method MoveCursor(newX: nat, newY: nat)
      requires Valid()
      modifies this`x, this`y
      ensures Abs() == SetCursor(old(Abs()), newX, newY)
    {
      if x >= COLUMNS || y >= ROWS {
        return;
      }
      x := newX % 256;
      y := newY % 256;
    }

    // ---------- devices.c

    /** set_attribute */
    method ChangeAttribute(a: nat)
      requires Valid()
      modifies this`fg, this`bg, this`blink, this`bright
      ensures Abs() == SetAttribute(old(Abs()), a)
    {
      var b := bright != 0;
      match a {
        case 0 => fg, bg, blink, bright := GREEN, BLACK, 0, 1;
        case 1 => bright := 1;
        case 2 => bright := 0;
        case 5 => blink := if blink == 0 then 1 else 0;
        case 7 => fg, bg := BLACK, GREEN;
        case 8 => fg := BLACK;
        case 30 => fg := if b then DARK_GRAY else BLACK;
        case 31 => fg := if b then LIGHT_RED else RED;
        case 32 => fg := if b then LIGHT_GREEN else GREEN;
        case 33 => fg := if b then YELLOW else BROWN;
        case 34 => fg := if b then LIGHT_BLUE else BLUE;
        case 35 => if b { fg := LIGHT_MAGENTA; }
        case 36 => fg := if b then LIGHT_CYAN else CYAN;
        case 37 => fg := if b then WHITE else LIGHT_GRAY;
        case 40 => bg := if b then DARK_GRAY else BLACK;
        case 41 => bg := if b then LIGHT_RED else RED;
        case 42 => bg := if b then LIGHT_GREEN else GREEN;
        case 43 => bg := if b then YELLOW else BROWN;
        case 44 => bg := if b then LIGHT_BLUE else BLUE;
        case 45 => bg := if b then LIGHT_MAGENTA else MAGENTA;
        case 46 => bg := if bright == 1 then LIGHT_CYAN else CYAN;
        case 47 => bg := if b then LIGHT_GRAY else WHITE;
        case _ =>
      }
    }

    /** The loop of the 'm' command. */
    method ChangeAttributes(params: array<nat>, n: nat)
      requires Valid() && n <= params.Length && params != screen
      modifies this`fg, this`bg, this`blink, this`bright
      ensures Abs() == SetAttributes(old(Abs()), params[..n])
    {
      for i := 0 to n
        invariant SetAttributes(Abs(), params[i..n]) == SetAttributes(old(Abs()), params[..n])
      {
        assert params[i..n][0] == params[i] && params[i..n][1..] == params[i + 1..n];
        ChangeAttribute(params[i]);
      }
      assert params[n..n] == [];
    }

    /** execute_command */
    method ExecuteCommand(op: char, params: array<nat>, n: nat) returns (ok: bool)
      requires Valid() && n <= params.Length && params != screen
      modifies this, screen
      ensures ok == Known(op, n)
      ensures Abs() == if ok then Execute(old(Abs()), op, params[..n]) else old(Abs())
    {
      if op == 'D' {
        ScrollScreen();
      } else if op == 'K' {
        EraseCurrentChar();
      } else if op == 'H' || op == 'f' {
        if n < 2 {
          if n != 0 {
            return false;
          }
          MoveCursor(0, 0);
        } else {
          MoveCursor(params[0], params[1]);
        }
      } else if op == 'm' {
        if n < 1 || n > 3 {
          return false;
        }
        ChangeAttributes(params, n);
      } else {
        return false;
      }
      ok := true;
    }

    /** Printing a rejected command, characters from start to i. */
    method PrintRejected(buffer: seq<char>, start: nat, i: nat)
      requires Valid() && start <= i < |buffer|
      modifies this`x, this`y, screen
      ensures Abs() == PrintAll(old(Abs()), buffer[start..i + 1])
    {
      for k := start to i + 1
        invariant PrintAll(Abs(), buffer[k..i + 1]) == PrintAll(old(Abs()), buffer[start..i + 1])
      {
        assert buffer[k..i + 1][0] == buffer[k] && buffer[k..i + 1][1..] == buffer[k + 1..i + 1];
        PrintcColor(buffer[k]);
      }
      assert buffer[i + 1..i + 1] == [];
    }

    /** params[n_params] = atoi_n(...), if there is a parameter and room for it. */
    method StoreParam(buffer: seq<char>, param: nat, i: nat, params: array<nat>, n: nat) returns (n': nat)
      requires i <= |buffer| && n <= params.Length == MAX_PARAMS
      modifies params
      ensures n' <= MAX_PARAMS && params[..n'] == WithParam(buffer, param, i, old(params[..n]))
      ensures n' > n <==> i > param && n < MAX_PARAMS
    {
      n' := n;
      if i > param && n < MAX_PARAMS {
        var value := AtoiN(buffer, param, i - param);
        params[n] := value;
        n' := n + 1;
        assert params[..n'] == old(params[..n]) + [value];
        assert buffer[param..param + (i - param)] == buffer[param..i];
      }
    }

    /** The inner loop of sys_write_console for the command that begins at start; the outer loop goes on at next. */
    method RunCommand(buffer: seq<char>, start: nat, ghost written: nat) returns (next: nat)
      requires Valid() && start <= |buffer|
      modifies this, screen
      ensures Plain(Out(Abs(), written), buffer, next) == Command(old(Out(Abs(), written)), buffer, start, start, start, [])
      ensures next > start
    {
      var params := new nat[MAX_PARAMS];
      var i: nat, param: nat, n: nat := start, start, 0;
      ghost var goal := Command(Out(Abs(), written), buffer, start, start, start, []);
      assert params[..n] == [];
      while i < |buffer|
        invariant start <= i <= |buffer| && n <= MAX_PARAMS
        invariant Abs() == old(Abs())
        invariant Command(Out(Abs(), written), buffer, start, param, i, params[..n]) == goal
      {
        if IsDigit(buffer[i]) {
          i := i + 1;
        } else if buffer[i] == ';' {
          ghost var before := params[..n];
          var n' := StoreParam(buffer, param, i, params, n);
          assert n' > n <==> params[..n'] != before;
          if n' > n {
            param := i + 1;
          }
          n := n';
          i := i + 1;
        } else {
          FinishCommand(buffer, start, param, i, params, n, written);
          return i + 1;
        }
      }
      next := i + 1;
    }

    /** The letter that ends a command, or a character that spoils it. */
    method FinishCommand(buffer: seq<char>, start: nat, param: nat, i: nat, params: array<nat>, n: nat, ghost written: nat)
      requires Valid() && start <= i < |buffer| && n <= params.Length == MAX_PARAMS && params != screen
      requires !IsDigit(buffer[i]) && buffer[i] != ';'
      modifies this, screen, params
      ensures Plain(Out(Abs(), written), buffer, i + 1)
           == Command(old(Out(Abs(), written)), buffer, start, param, i, old(params[..n]))
    {
      if IsLetter(buffer[i]) {
        var n' := StoreParam(buffer, param, i, params, n);
        var ok := ExecuteCommand(buffer[i], params, n');
        if !ok {
          PrintRejected(buffer, start, i);
        }
      } else {
        PrintRejected(buffer, start, i);
      }
    }

    /** sys_write_console; the result is chars_written. */
    method SysWriteConsole(buffer: seq<char>) returns (written: nat)
      requires Valid()
      modifies this, screen
      ensures Out(Abs(), written) == Write(old(Abs()), buffer)
      ensures OnScreen(old(Abs())) && '[' !in buffer ==> written == |buffer| && Depicts(Abs(), Defaults(old(Abs())), buffer)
    {
      ghost var c := Abs();
      fg, bg, blink, bright := GREEN, BLACK, 0, 1;
      written := 0;
      var i := 0;
      while i < |buffer|
        invariant Plain(Out(Abs(), written), buffer, i) == Write(old(Abs()), buffer)
        decreases |buffer| - i
      {
        if buffer[i] == '[' {
          i := RunCommand(buffer, i + 1, written);
        } else {
          PrintcColor(buffer[i]);
          written := written + 1;
          i := i + 1;
        }
      }
      if OnScreen(c) && '[' !in buffer {
        WrittenText(c, buffer);
      }
    }
  }

  /** format_buffer and the drawing calls of graphics.c. */
  class Graphics {
    const format: array<char>

    /** The positions of the template that no call changes. */
    ghost predicate Valid()
      reads format
    {
      && format.Length == 15
      && format[0] == '[' && format[3] == ';' && format[6] == 'H'
      && format[7] == '[' && format[8] == '4' && format[10] == ';' && format[11] == '3' && format[13] == 'm'
    }

    constructor ()
      ensures Valid() && fresh(format)
    {
      format := new char[15] ['[', '0', '0', ';', '0', '3', 'H', '[', '4', '0', ';', '3', '0', 'm', ' '];
    }

    /** The seven variable characters. */
    method FillIn(ch: char, i: nat, j: nat, fg: nat, bg: nat)
      requires Valid() && i < 256 && j < 256 && fg < 200 && bg < 200
      modifies format
      ensures Valid() && format[..] == Format(ch, i, j, fg, bg)
    {
      format[1] := Ascii(j / 10);
      format[2] := Ascii(j % 10);
      format[4] := Ascii(i / 10);
      format[5] := Ascii(i % 10);
      format[9] := Ascii(bg);
      format[12] := Ascii(fg);
      format[14] := ch;
    }

    /** g_draw_ij */
    method DrawIj(console: Console, ch: char, i: nat, j: nat, fg: nat, bg: nat)
      requires Valid() && console.Valid() && i < 256 && j < 256 && fg < 200 && bg < 200
      modifies format, console, console.screen
      ensures Valid() && console.Abs() == Write(old(console.Abs()), Format(ch, i, j, fg, bg)).con
    {
      FillIn(ch, i, j, fg, bg);
      var written := console.SysWriteConsole(format[..]);
    }
  }
}
