// Drawing cells by printing commands: what g_draw_ij prints, the console parses back, so that the
// screen behaves as a framebuffer in which the last writer of a cell wins.

module Framebuffer {
  import opened Decimal
  import opened ConsoleSpec

  // ---------- printing and parsing commands

  lemma {:induction false} SkipDigits(o: Out, buf: seq<char>, start: nat, param: nat, i: nat, j: nat, params: seq<nat>)
    requires Sized(o) && start <= i <= j <= |buf| && |params| <= MAX_PARAMS && AllDigits(buf[i..j])
    ensures Command(o, buf, start, param, i, params) == Command(o, buf, start, param, j, params)
    decreases j - i
  {
    if i < j {
      assert buf[i] == buf[i..j][0] && buf[i + 1..j] == buf[i..j][1..];
      SkipDigits(o, buf, start, param, i + 1, j, params);
    }
  }

  /** The first parameter, up to its separator. */
  lemma FirstParameter(o: Out, buf: seq<char>, i: nat, a: nat)
    requires Sized(o) && i + 1 < a < |buf| && buf[i] == '[' && buf[a] == ';' && AllDigits(buf[i + 1..a])
    ensures Plain(o, buf, i) == Command(o, buf, i + 1, a + 1, a + 1, [Value(buf[i + 1..a])])
  {
    SkipDigits(o, buf, i + 1, i + 1, i + 1, a, []);
    assert WithParam(buf, i + 1, a, []) == [Value(buf[i + 1..a])];
  }

  /** The last parameter, and the command itself. */
  lemma LastParameter(o: Out, buf: seq<char>, start: nat, p: nat, a: nat, b: nat)
    requires Sized(o) && start <= a < b < |buf| && IsLetter(buf[b]) && Known(buf[b], 2) && AllDigits(buf[a..b])
    ensures Command(o, buf, start, a, a, [p])
         == Plain(o.(con := Execute(o.con, buf[b], [p, Value(buf[a..b])])), buf, b + 1)
  {
    SkipDigits(o, buf, start, a, a, b, [p]);
    assert WithParam(buf, a, b, [p]) == [p, Value(buf[a..b])];
  }

  /** A command with two numerals is carried out with exactly the two numbers. */
  lemma TwoParameters(o: Out, buf: seq<char>, i: nat, a: nat, b: nat)
    requires Sized(o) && i + 1 < a && a + 1 < b < |buf|
    requires buf[i] == '[' && buf[a] == ';' && IsLetter(buf[b]) && Known(buf[b], 2)
    requires AllDigits(buf[i + 1..a]) && AllDigits(buf[a + 1..b])
    ensures Plain(o, buf, i)
         == Plain(o.(con := Execute(o.con, buf[b], [Value(buf[i + 1..a]), Value(buf[a + 1..b])])), buf, b + 1)
  {
    FirstParameter(o, buf, i, a);
    LastParameter(o, buf, i + 1, Value(buf[i + 1..a]), a + 1, b);
  }

  // ---------- g_draw_ij

  /** A decimal digit of an unsigned byte as the source computes it. */
  function Ascii(d: nat): char
    requires d < 200
  {
    ('0' as int + d) as char
  }

  /** The fifteen characters that g_draw_ij writes: column first, then row, then background and foreground. */
  function Format(ch: char, i: nat, j: nat, fg: nat, bg: nat): (s: seq<char>)
    requires i < 256 && j < 256 && fg < 200 && bg < 200
    ensures |s| == 15
  {
    ['[', Ascii(j / 10), Ascii(j % 10), ';', Ascii(i / 10), Ascii(i % 10), 'H',
     '[', '4', Ascii(bg), ';', '3', Ascii(fg), 'm', ch]
  }

  datatype Draw = Draw(ch: char, i: nat, j: nat, fg: nat, bg: nat)

  /** A draw on the screen with one of the eight colours and a character that is not a control. */
  predicate Drawable(d: Draw) {
    d.i < ROWS && d.j < COLUMNS && d.fg < 8 && d.bg < 8 && d.ch != '[' && d.ch != '\n'
  }

  function FormatOf(d: Draw): (s: seq<char>)
    requires Drawable(d)
    ensures |s| == 15
  {
    Format(d.ch, d.i, d.j, d.fg, d.bg)
  }

  predicate LastCell(d: Draw) {
    d.i == ROWS - 1 && d.j == COLUMNS - 1
  }

  function Position(d: Draw): nat {
    d.i * COLUMNS + d.j
  }

  /** The text attribute for a drawing colour: the bright variant of the console's colour. */
  function Shade(colour: nat): nat
    requires colour < 8
  {
    [DARK_GRAY, LIGHT_RED, LIGHT_GREEN, YELLOW, LIGHT_BLUE, LIGHT_MAGENTA, LIGHT_CYAN, WHITE][colour]
  }

  /** As a background, white comes out as light gray. */
  function BackShade(colour: nat): nat
    requires colour < 8
  {
    if colour == 7 then LIGHT_GRAY else Shade(colour)
  }

  function DrawnCell(d: Draw): nat
    requires Drawable(d)
  {
    Cell(d.ch, Shade(d.fg), BackShade(d.bg), 0)
  }

  lemma TwoDigits(n: nat)
    requires n < 100
    ensures AllDigits([Ascii(n / 10), Ascii(n % 10)]) && Value([Ascii(n / 10), Ascii(n % 10)]) == n
  {
    var s := [Ascii(n / 10), Ascii(n % 10)];
    assert s[..1] == [Ascii(n / 10)] && s[..1][..0] == [];
    assert DigitValue(Ascii(n / 10)) == n / 10 && DigitValue(Ascii(n % 10)) == n % 10;
    assert Value(s[..1]) == n / 10;
  }

  lemma TensAndUnits(t: nat, u: nat)
    requires t < 10 && u < 10
    ensures (10 * t + u) / 10 == t && (10 * t + u) % 10 == u
  {
  }

  /** The colour command sets exactly the two shades. */
  lemma ColourCommand(c: Con, fg: nat, bg: nat)
    requires c.bright == 1 && fg < 8 && bg < 8
    ensures SetAttributes(c, [40 + bg, 30 + fg]) == c.(bg := BackShade(bg), fg := Shade(fg))
  {
    assert [40 + bg, 30 + fg][1..] == [30 + fg];
    assert [30 + fg][1..] == [];
    var c1 := SetAttribute(c, 40 + bg);
    BackgroundShade(c, bg);
    ForegroundShade(c1, fg);
    assert SetAttributes(c1, [30 + fg]) == SetAttributes(SetAttribute(c1, 30 + fg), []);
  }

  lemma BackgroundShade(c: Con, bg: nat)
    requires c.bright == 1 && bg < 8
    ensures SetAttribute(c, 40 + bg) == c.(bg := BackShade(bg))
  {
  }

  lemma ForegroundShade(c: Con, fg: nat)
    requires c.bright == 1 && fg < 8
    ensures SetAttribute(c, 30 + fg) == c.(fg := Shade(fg))
  {
  }

  lemma CursorMoves(c: Con, d: Draw)
    requires |c.screen| == CELLS && OnScreen(c) && Drawable(d)
    ensures Known('H', 2) && Execute(c, 'H', [d.j, d.i]) == c.(x := d.j, y := d.i)
  {
  }

  lemma CursorCommand(o: Out, d: Draw)
    requires Sized(o) && OnScreen(o.con) && Drawable(d)
    ensures Plain(o, FormatOf(d), 0) == Plain(o.(con := o.con.(x := d.j, y := d.i)), FormatOf(d), 7)
  {
    var buf := FormatOf(d);
    TwoDigits(d.j);
    TwoDigits(d.i);
    assert buf[1..3] == [Ascii(d.j / 10), Ascii(d.j % 10)] && buf[4..6] == [Ascii(d.i / 10), Ascii(d.i % 10)];
    CursorMoves(o.con, d);
    TwoParameters(o, buf, 0, 3, 6);
  }

  lemma AttributeCommand(o: Out, d: Draw)
    requires Sized(o) && o.con.bright == 1 && Drawable(d)
    ensures Plain(o, FormatOf(d), 7)
         == Plain(o.(con := o.con.(bg := BackShade(d.bg), fg := Shade(d.fg))), FormatOf(d), 14)
  {
    var buf := FormatOf(d);
    TwoDigits(40 + d.bg);
    TwoDigits(30 + d.fg);
    TensAndUnits(4, d.bg);
    TensAndUnits(3, d.fg);
    assert buf[8..10] == [Ascii(4), Ascii(d.bg)] && buf[11..13] == [Ascii(3), Ascii(d.fg)];
    TwoParameters(o, buf, 7, 10, 13);
    ColourCommand(o.con, d.fg, d.bg);
  }

  /** The console after the two commands of a draw, before its character. */
  function Prepared(c: Con, d: Draw): Con
    requires Drawable(d)
  {
    Defaults(c).(x := d.j, y := d.i, fg := Shade(d.fg), bg := BackShade(d.bg))
  }

  lemma CommandsOfDraw(c: Con, d: Draw)
    requires OnScreen(c) && Drawable(d)
    ensures Write(c, FormatOf(d)) == Plain(Out(Prepared(c, d), 0), FormatOf(d), 14)
  {
    var o := Out(Defaults(c), 0);
    CursorCommand(o, d);
    AttributeCommand(o.(con := o.con.(x := d.j, y := d.i)), d);
  }

  /** The cursor is behind the cell: in the next column, or at the start of the next row if there is one. */
  ghost predicate BehindDraw(r: Con, d: Draw) {
    if d.j + 1 < COLUMNS then r.x == d.j + 1 && r.y == d.i
    else r.x == 0 && r.y == if d.i + 1 < ROWS then d.i + 1 else d.i
  }

  lemma PrintedCell(c: Con, d: Draw)
    requires OnScreen(c) && Drawable(d)
    ensures var r := Print(Prepared(c, d), d.ch);
            && OnScreen(r) && BehindDraw(r, d)
            && var screen := c.screen[Position(d) := DrawnCell(d)];
               r.screen == if LastCell(d) then Scrolled(screen) else screen
  {
  }

  /** One draw, in full: it writes its cell, and scrolls exactly when the cell is the last one. */
  lemma OneDraw(c: Con, d: Draw)
    requires OnScreen(c) && Drawable(d)
    ensures var r := Write(c, FormatOf(d));
            && OnScreen(r.con) && BehindDraw(r.con, d) && r.written == 1
            && var screen := c.screen[Position(d) := DrawnCell(d)];
               r.con.screen == if LastCell(d) then Scrolled(screen) else screen
  {
    var buf, o := FormatOf(d), Out(Prepared(c, d), 0);
    CommandsOfDraw(c, d);
    PrintedCell(c, d);
    assert buf[14] == d.ch;
    assert Plain(o, buf, 14) == Plain(Out(Print(o.con, d.ch), 1), buf, 15) == Out(Print(o.con, d.ch), 1);
  }

  /** A draw leaves all other cells alone exactly when it is not at the last cell. */
  lemma DrawIsLocalIff(c: Con, d: Draw)
    requires OnScreen(c) && Drawable(d)
    ensures Write(c, FormatOf(d)).con.screen == c.screen[Position(d) := DrawnCell(d)]
            <==> !LastCell(d)
  {
    OneDraw(c, d);
    if LastCell(d) {
      var screen := c.screen[Position(d) := DrawnCell(d)];
      assert Scrolled(screen)[CELLS - 1] == BLANK;
      assert Shade(d.fg) >= 8;
      assert DrawnCell(d) != BLANK;
      assert screen[CELLS - 1] == DrawnCell(d);
    }
  }

  // ---------- sequences of draws

  function AllDrawn(c: Con, draws: seq<Draw>): (r: Con)
    requires |c.screen| == CELLS && forall k :: 0 <= k < |draws| ==> Drawable(draws[k])
    ensures |r.screen| == CELLS
    decreases draws
  {
    if draws == [] then c
    else
      var d := draws[0];
      assert Drawable(d);
      AllDrawn(Write(c, FormatOf(d)).con, draws[1..])
  }

  /** What a framebuffer shows at position at: the last draw there, or what was there before. */
  function LastWriter(screen: seq<nat>, draws: seq<Draw>, at: nat): nat
    requires at < |screen| && forall k :: 0 <= k < |draws| ==> Drawable(draws[k])
  {
    if draws == [] then screen[at]
    else
      var d := draws[|draws| - 1];
      if Position(d) == at then DrawnCell(d) else LastWriter(screen, draws[..|draws| - 1], at)
  }

  lemma {:induction false} LastWriterFirst(screen: seq<nat>, draws: seq<Draw>, at: nat)
    requires at < |screen| == CELLS && draws != [] && forall k :: 0 <= k < |draws| ==> Drawable(draws[k])
    ensures LastWriter(screen, draws, at) == LastWriter(screen[Position(draws[0]) := DrawnCell(draws[0])], draws[1..], at)
    decreases draws
  {
    var n := |draws| - 1;
    if n == 0 {
      assert draws[1..] == [] && draws[..0] == [];
    } else {
      LastWriterFirst(screen, draws[..n], at);
      assert draws[1..][..n - 1] == draws[..n][1..] && draws[1..][n - 1] == draws[n];
    }
  }

  /** After any sequence of draws off the last cell, every cell shows its last writer. */
  lemma {:induction false} LastWriterWins(c: Con, draws: seq<Draw>)
    requires OnScreen(c) && forall k :: 0 <= k < |draws| ==> Drawable(draws[k]) && !LastCell(draws[k])
    ensures OnScreen(AllDrawn(c, draws))
    ensures forall at :: 0 <= at < CELLS ==> AllDrawn(c, draws).screen[at] == LastWriter(c.screen, draws, at)
    decreases draws
  {
    if draws != [] {
      var d := draws[0];
      var c1 := Write(c, FormatOf(d)).con;
      OneDraw(c, d);
      LastWriterWins(c1, draws[1..]);
      forall at: nat | at < CELLS
        ensures AllDrawn(c, draws).screen[at] == LastWriter(c.screen, draws, at)
      {
        LastWriterFirst(c.screen, draws, at);
      }
    }
  }
}
