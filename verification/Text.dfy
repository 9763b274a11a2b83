// Where text appears on the screen: the row and column of each character, told by the newlines and the full lines
// before it, the words that the cells hold, and what is left after the text has scrolled.

module Texts {
  import opened Common
  import opened Decimal
  import opened ConsoleSpec

  /** The word at a row and column of the screen. */
  function At(screen: seq<nat>, row: nat, col: nat): nat
    requires |screen| == CELLS && row < ROWS && col < COLUMNS
  {
    screen[row * COLUMNS + col]
  }

  /** The word that shows ch: the character, four bits of foreground, three of background, one for blinking. */
  function Word(c: Con, ch: char): nat {
    ch as int % 256 + 256 * (c.fg % 16) + 4096 * (c.bg % 8) + if c.blink != 0 then 32768 else 0
  }

  /** A NUL in green on black. */
  const EMPTY: nat := 512

  // ---------- layout

  /** How many characters follow the last newline. */
  function Tail(s: seq<char>): (n: nat)
    ensures n <= |s| && ('\n' in s ==> n < |s|)
  {
    if s == [] || s[|s| - 1] == '\n' then 0 else Tail(s[..|s| - 1]) + 1
  }

  /** The column behind text that begins in column x. */
  function Across(x: nat, s: seq<char>): (col: nat)
    ensures col < COLUMNS
  {
    (Tail(s) + if '\n' in s then 0 else x) % COLUMNS
  }

  /** How many rows further down that is: one for each newline and one for each full line. */
  function Down(x: nat, s: seq<char>): nat
  {
    if '\n' !in s then (x + |s|) / COLUMNS
    else Down(x, s[..|s| - 1 - Tail(s)]) + 1 + Tail(s) / COLUMNS
  }

  lemma NextColumn(n: nat)
    ensures (n + 1) / COLUMNS == n / COLUMNS + (if n % COLUMNS == COLUMNS - 1 then 1 else 0)
    ensures (n + 1) % COLUMNS == if n % COLUMNS == COLUMNS - 1 then 0 else n % COLUMNS + 1
  {
  }

  lemma TailMore(s: seq<char>, ch: char)
    ensures Tail(s + [ch]) == if ch == '\n' then 0 else Tail(s) + 1
    ensures '\n' in s + [ch] <==> '\n' in s || ch == '\n'
  {
    assert (s + [ch])[..|s|] == s && (s + [ch])[|s|] == ch;
  }

  lemma NewlineMore(x: nat, s: seq<char>)
    ensures Down(x, s + ['\n']) == Down(x, s) + 1 && Across(x, s + ['\n']) == 0
  {
    TailMore(s, '\n');
    assert (s + ['\n'])[..|s|] == s;
  }

  /** Down without the characters of the last line. */
  function Above(x: nat, s: seq<char>): nat {
    if '\n' !in s then 0 else Down(x, s[..|s| - 1 - Tail(s)]) + 1
  }

  /** How far into its last line the text is. */
  function Into(x: nat, s: seq<char>): nat {
    Tail(s) + if '\n' in s then 0 else x
  }

  lemma {:induction false} WholeTail(s: seq<char>)
    requires '\n' !in s
    ensures Tail(s) == |s|
  {
    if s != [] {
      WholeTail(s[..|s| - 1]);
    }
  }

  lemma DownIs(x: nat, s: seq<char>)
    ensures Down(x, s) == Above(x, s) + Into(x, s) / COLUMNS && Across(x, s) == Into(x, s) % COLUMNS
  {
    if '\n' !in s {
      WholeTail(s);
    }
  }

  lemma SameLine(x: nat, s: seq<char>, ch: char)
    requires ch != '\n'
    ensures Above(x, s + [ch]) == Above(x, s) && Into(x, s + [ch]) == Into(x, s) + 1
  {
    TailMore(s, ch);
    if '\n' in s {
      assert (s + [ch])[..|s| - 1 - Tail(s)] == s[..|s| - 1 - Tail(s)];
    }
  }

  /** One character more. */
  lemma LayoutMore(x: nat, s: seq<char>, ch: char)
    ensures var breaks := ch == '\n' || Across(x, s) == COLUMNS - 1;
            && Down(x, s + [ch]) == Down(x, s) + (if breaks then 1 else 0)
            && Across(x, s + [ch]) == if breaks then 0 else Across(x, s) + 1
  {
    hide Down, Across, Above, Into;
    if ch == '\n' {
      NewlineMore(x, s);
    } else {
      SameLine(x, s, ch);
      DownIs(x, s);
      DownIs(x, s + [ch]);
      NextColumn(Into(x, s));
    }
  }

  // ---------- the text on paper: rows without end, of which the screen shows the last

  /** The word at a row and column once s is printed from the cursor of c on. */
  function Shown(c: Con, s: seq<char>, row: nat, col: nat): nat
    requires |c.screen| == CELLS && col < COLUMNS
  {
    if s == [] then (if row < ROWS then At(c.screen, row, col) else EMPTY)
    else
      var n := |s| - 1;
      if s[n] != '\n' && row == c.y + Down(c.x, s[..n]) && col == Across(c.x, s[..n]) then Word(c, s[n])
      else Shown(c, s[..n], row, col)
  }

  /** r is the console after s was printed on c. */
  ghost predicate Depicts(r: Con, c: Con, s: seq<char>)
    requires |c.screen| == CELLS
  {
    var down := c.y + Down(c.x, s);
    && OnScreen(r) && r.x == Across(c.x, s) && r.y == (if down < ROWS then down else ROWS - 1)
    && r.fg == c.fg && r.bg == c.bg && r.blink == c.blink && r.bright == c.bright
    && forall row, col :: 0 <= row < ROWS && 0 <= col < COLUMNS ==> At(r.screen, row, col) == Shown(c, s, row + (down - r.y), col)
  }

  lemma CellWord(c: Con, ch: char)
    ensures Cell(ch, c.fg, c.bg, c.blink) == Word(c, ch)
  {
  }

  lemma PutShows(screen: seq<nat>, y: nat, x: nat, w: nat, row: nat, col: nat)
    requires |screen| == CELLS && y < ROWS && x < COLUMNS && row < ROWS && col < COLUMNS
    ensures At(Put(screen, y * COLUMNS + x, w), row, col) == if row == y && col == x then w else At(screen, row, col)
  {
  }

  lemma ScrolledShows(screen: seq<nat>, row: nat, col: nat)
    requires |screen| == CELLS && row < ROWS && col < COLUMNS
    ensures At(Scrolled(screen), row, col) == if row + 1 < ROWS then At(screen, row + 1, col) else EMPTY
  {
  }

  /** Nothing is printed further down than the text goes. */
  lemma {:induction false} BelowIsEmpty(c: Con, s: seq<char>, row: nat, col: nat)
    requires |c.screen| == CELLS && col < COLUMNS && row >= ROWS && row > c.y + Down(c.x, s)
    ensures Shown(c, s, row, col) == EMPTY
  {
    if s != [] {
      var n := |s| - 1;
      assert s == s[..n] + [s[n]];
      LayoutMore(c.x, s[..n], s[n]);
      BelowIsEmpty(c, s[..n], row, col);
    }
  }

  lemma ShownMore(c: Con, s: seq<char>, ch: char, row: nat, col: nat)
    requires |c.screen| == CELLS && col < COLUMNS
    ensures Shown(c, s + [ch], row, col) ==
            if ch != '\n' && row == c.y + Down(c.x, s) && col == Across(c.x, s) then Word(c, ch) else Shown(c, s, row, col)
  {
    assert (s + [ch])[..|s|] == s;
  }

  lemma DepictsNothing(c: Con)
    requires OnScreen(c)
    ensures Depicts(c, c, [])
  {
  }

  /** The character itself, without what follows at the end of a line. */
  function Stored(r: Con, ch: char): (screen: seq<nat>)
    requires |r.screen| == CELLS
    ensures |screen| == CELLS
  {
    if ch == '\n' then r.screen else Put(r.screen, r.y * COLUMNS + r.x, Cell(ch, r.fg, r.bg, r.blink))
  }

  lemma StoredShows(c: Con, s: seq<char>, r: Con, ch: char, row: nat, col: nat)
    requires |c.screen| == CELLS && Depicts(r, c, s) && row < ROWS && col < COLUMNS
    ensures var up := c.y + Down(c.x, s) - r.y; up >= 0 && At(Stored(r, ch), row, col) == Shown(c, s + [ch], row + up, col)
  {
    hide Shown, Cell, Put;
    var up := c.y + Down(c.x, s) - r.y;
    ShownMore(c, s, ch, row + up, col);
    assert At(r.screen, row, col) == Shown(c, s, row + up, col);
    if ch != '\n' {
      CellWord(r, ch);
      PutShows(r.screen, r.y, r.x, Word(r, ch), row, col);
    }
  }

  lemma PrintIs(r: Con, ch: char)
    requires OnScreen(r)
    ensures Print(r, ch) == if ch == '\n' || r.x == COLUMNS - 1 then NewLine(r.(screen := Stored(r, ch)))
                            else r.(screen := Stored(r, ch), x := r.x + 1)
  {
  }

  /** Printing one character more. */
  lemma PrintDepicts(c: Con, s: seq<char>, r: Con, ch: char)
    requires |c.screen| == CELLS && Depicts(r, c, s)
    ensures Depicts(Print(r, ch), c, s + [ch])
  {
    hide Shown, Cell, Put, Scrolled, Print, At, Down, Across;
    var r', screen := Print(r, ch), Stored(r, ch);
    var up, down := c.y + Down(c.x, s) - r.y, c.y + Down(c.x, s + [ch]);
    LayoutMore(c.x, s, ch);
    PrintIs(r, ch);
    var breaks := ch == '\n' || r.x == COLUMNS - 1;
    forall row: nat, col: nat | row < ROWS && col < COLUMNS
      ensures At(r'.screen, row, col) == Shown(c, s + [ch], row + (down - r'.y), col)
    {
      if !breaks || r.y + 1 < ROWS {
        StoredShows(c, s, r, ch, row, col);
      } else {
        ScrolledShows(screen, row, col);
        if row + 1 < ROWS {
          StoredShows(c, s, r, ch, row + 1, col);
        } else {
          ShownMore(c, s, ch, row + up + 1, col);
          BelowIsEmpty(c, s, row + up + 1, col);
        }
      }
    }
  }

  lemma OneCharacter(c: Con, ch: char)
    requires |c.screen| == CELLS
    ensures OnScreen(c) ==> Depicts(Print(c, ch), c, [ch])
  {
    if OnScreen(c) {
      DepictsNothing(c);
      PrintDepicts(c, [], c, ch);
      assert [] + [ch] == [ch];
    }
  }

  // ---------- which cell shows each character

  ghost function RowOf(c: Con, s: seq<char>, k: nat): nat
    requires k <= |s|
  {
    c.y + Down(c.x, s[..k])
  }

  ghost function ColOf(c: Con, s: seq<char>, k: nat): (col: nat)
    requires k <= |s|
    ensures col < COLUMNS
  {
    Across(c.x, s[..k])
  }

  /** Character k of s is printed at that row and column. */
  ghost predicate PrintedAt(c: Con, s: seq<char>, k: nat, row: nat, col: nat) {
    k < |s| && s[k] != '\n' && RowOf(c, s, k) == row && ColOf(c, s, k) == col
  }

  /** Later characters are further on. */
  lemma {:induction false} Later(x: nat, s: seq<char>, k: nat, m: nat)
    requires k < m <= |s| && s[k] != '\n'
    ensures Down(x, s[..k]) < Down(x, s[..m])
            || (Down(x, s[..k]) == Down(x, s[..m]) && Across(x, s[..k]) < Across(x, s[..m]))
    decreases m
  {
    hide Down, Across;
    assert s[..m] == s[..m - 1] + [s[m - 1]];
    LayoutMore(x, s[..m - 1], s[m - 1]);
    if k < m - 1 {
      Later(x, s, k, m - 1);
    }
  }

  lemma {:induction false} CharShown(c: Con, s: seq<char>, k: nat)
    requires |c.screen| == CELLS && k < |s| && s[k] != '\n'
    ensures Shown(c, s, RowOf(c, s, k), ColOf(c, s, k)) == Word(c, s[k])
    decreases s
  {
    hide Down, Across;
    var n := |s| - 1;
    if k < n {
      assert s[..n][..k] == s[..k];
      CharShown(c, s[..n], k);
      Later(c.x, s, k, n);
    }
  }

  lemma {:induction false} ElsewhereBare(c: Con, s: seq<char>, row: nat, col: nat)
    requires |c.screen| == CELLS && col < COLUMNS && forall k :: 0 <= k < |s| ==> !PrintedAt(c, s, k, row, col)
    ensures Shown(c, s, row, col) == if row < ROWS then At(c.screen, row, col) else EMPTY
    decreases s
  {
    hide Down, Across;
    if s != [] {
      var n := |s| - 1;
      forall k: nat | k < n
        ensures !PrintedAt(c, s[..n], k, row, col)
      {
        assert s[..n][..k] == s[..k];
        assert !PrintedAt(c, s, k, row, col);
      }
      ElsewhereBare(c, s[..n], row, col);
      assert !PrintedAt(c, s, n, row, col);
    }
  }

  /** Each character is in its place, moved up by the rows that the screen has scrolled, unless it has scrolled away. */
  lemma CharacterOnScreen(c: Con, s: seq<char>, r: Con, k: nat)
    requires OnScreen(c) && Depicts(r, c, s) && k < |s| && s[k] != '\n'
    ensures var up := RowOf(c, s, |s|) - r.y;
            RowOf(c, s, k) >= up ==>
              RowOf(c, s, k) - up < ROWS && At(r.screen, RowOf(c, s, k) - up, ColOf(c, s, k)) == Word(c, s[k])
  {
    hide Down, Across, Shown, At, Word;
    assert s[..|s|] == s;
    Later(c.x, s, k, |s|);
    CharShown(c, s, k);
  }

  /** Elsewhere is what was there before, or nothing in a row that has come up from below. */
  lemma RestOfScreen(c: Con, s: seq<char>, r: Con, row: nat, col: nat)
    requires OnScreen(c) && Depicts(r, c, s) && col < COLUMNS && 0 <= row - (RowOf(c, s, |s|) - r.y) < ROWS
    requires forall k :: 0 <= k < |s| ==> !PrintedAt(c, s, k, row, col)
    ensures At(r.screen, row - (RowOf(c, s, |s|) - r.y), col) == if row < ROWS then At(c.screen, row, col) else EMPTY
  {
    hide Down, Across, Shown, At, Word;
    assert s[..|s|] == s;
    ElsewhereBare(c, s, row, col);
  }

  // ---------- text in a buffer

  /** The characters of a buffer up to a '[' are printed one after the other, and counted. */
  lemma {:induction false} TextPrints(o: Out, buf: seq<char>, i: nat, j: nat, c: Con, s: seq<char>) returns (r: Out)
    requires Sized(o) && i <= j <= |buf| && '[' !in buf[i..j] && |c.screen| == CELLS && Depicts(o.con, c, s)
    ensures Sized(r) && Plain(o, buf, i) == Plain(r, buf, j)
    ensures Depicts(r.con, c, s + buf[i..j]) && r.written == o.written + (j - i)
    decreases j - i
  {
    hide Depicts;
    if i == j {
      r := o;
      assert s + buf[i..j] == s;
    } else {
      assert buf[i] == buf[i..j][0] && buf[i + 1..j] == buf[i..j][1..];
      PrintDepicts(c, s, o.con, buf[i]);
      r := TextPrints(Out(Print(o.con, buf[i]), o.written + 1), buf, i + 1, j, c, s + [buf[i]]);
      assert s + [buf[i]] + buf[i + 1..j] == s + buf[i..j];
    }
  }

  lemma {:induction false} PrintAllDepicts(c: Con, s: seq<char>, r: Con, more: seq<char>)
    requires |c.screen| == CELLS && Depicts(r, c, s)
    ensures Depicts(PrintAll(r, more), c, s + more)
    decreases more
  {
    hide Print;
    if more == [] {
      assert s + more == s;
    } else {
      PrintDepicts(c, s, r, more[0]);
      PrintAllDepicts(c, s + [more[0]], Print(r, more[0]), more[1..]);
      assert s + [more[0]] + more[1..] == s + more;
    }
  }

  /** A whole call of sys_write_console with text only: it is printed green on black, and every character counts. */
  lemma WrittenText(c: Con, s: seq<char>)
    requires OnScreen(c) && '[' !in s
    ensures var o := Write(c, s);
            && o.written == |s| && Depicts(o.con, Defaults(c), s)
            && o.con.fg == GREEN && o.con.bg == BLACK && o.con.blink == 0 && o.con.bright == 1
  {
    hide Depicts;
    var o := Out(Defaults(c), 0);
    DepictsNothing(o.con);
    assert s[0..|s|] == s && [] + s == s;
    var r := TextPrints(o, s, 0, |s|, o.con, []);
    DepictsColours(r.con, o.con, s);
  }

  lemma DepictsColours(r: Con, c: Con, s: seq<char>)
    requires |c.screen| == CELLS && Depicts(r, c, s)
    ensures r.fg == c.fg && r.bg == c.bg && r.blink == c.blink && r.bright == c.bright
  {
  }

  /** So each character of it, unless scrolled away, is in its cell in green on black, and the cursor is behind the
      last one. */
  lemma TextOnScreen(c: Con, s: seq<char>, k: nat)
    requires OnScreen(c) && '[' !in s && k < |s| && s[k] != '\n'
    ensures var r, down := Write(c, s).con, c.y + Down(c.x, s);
            var up := if down < 25 then 0 else down - 24;
            var row, col := c.y + Down(c.x, s[..k]) - up, Across(c.x, s[..k]);
            && r.x == Across(c.x, s) && r.y == down - up && |r.screen| == 2000
            && (row >= 0 ==> row < 25 && r.screen[80 * row + col] == s[k] as int % 256 + 512)
  {
    hide Down, Across, Write;
    WrittenText(c, s);
    assert s[..|s|] == s;
    CharacterOnScreen(Defaults(c), s, Write(c, s).con, k);
  }
}
