// Bitmap levels of lab/zeos/map.c: drawing a level bit by bit shows a wall exactly where the bit
// lookup finds one.

module Maps {
  import opened ConsoleSpec
  import opened Framebuffer
  import opened Consoles

  const MAP_HEIGHT: nat := 21
  const MAP_WIDTH: nat := 80
  const MAP_Y_OFFSET: nat := 3
  const ROW_BYTES: nat := MAP_WIDTH / 8

  // Drawing colours of graphics.h
  const WALL_COLOR: nat := 2
  const FLOOR_COLOR: nat := 0

  type Map = m: seq<bv8> | |m| == MAP_HEIGHT * ROW_BYTES witness seq(MAP_HEIGHT * ROW_BYTES, i => 0)

  /** map_is_wall: a wall is a bit that is 0. */
  predicate IsWall(map_: Map, x: nat, y: nat)
    requires x < MAP_WIDTH && y < MAP_HEIGHT
  {
    map_[y * MAP_WIDTH / 8 + x / 8] & (0x80 as bv8 >> (x % 8)) == 0
  }

  // ---------- masks

  /** The mask after b shifts. */
  function Mask(b: nat): bv8
    requires b <= 8
  {
    [0x80, 0x40, 0x20, 0x10, 0x08, 0x04, 0x02, 0x01, 0x00][b]
  }

  lemma MaskShifts(b: nat)
    requires b < 8
    ensures Mask(b) >> 1 == Mask(b + 1) && Mask(b) != 0 && 0x80 as bv8 >> b == Mask(b)
  {
    match b {
      case 0 => case 1 => case 2 => case 3 => case 4 => case 5 => case 6 => case 7 =>
    }
  }

  // ---------- the level on the screen

  function ColorAt(map_: Map, x: nat, y: nat): nat
    requires x < MAP_WIDTH && y < MAP_HEIGHT
  {
    if IsWall(map_, x, y) then WALL_COLOR else FLOOR_COLOR
  }

  function BlockCell(color: nat): nat
    requires color < 8
  {
    Cell(' ', Shade(color), BackShade(color), 0)
  }

  /** The screen with the first n map cells, row by row, drawn over s. */
  ghost predicate ShowsFirst(map_: Map, n: nat, s: seq<nat>, screen: seq<nat>) {
    && |s| == |screen| == CELLS && n <= MAP_WIDTH * MAP_HEIGHT
    && forall p :: 0 <= p < CELLS ==>
         screen[p] == if MAP_Y_OFFSET * COLUMNS <= p < MAP_Y_OFFSET * COLUMNS + n
                      then BlockCell(ColorAt(map_, p % COLUMNS, p / COLUMNS - MAP_Y_OFFSET)) else s[p]
  }

  lemma ShowsMore(map_: Map, n: nat, s: seq<nat>, screen: seq<nat>, x: nat, y: nat)
    requires ShowsFirst(map_, n, s, screen) && n == y * MAP_WIDTH + x && x < MAP_WIDTH && y < MAP_HEIGHT
    ensures var d := Draw(' ', y + MAP_Y_OFFSET, x, ColorAt(map_, x, y), ColorAt(map_, x, y));
            Drawable(d) && !LastCell(d) && Position(d) == MAP_Y_OFFSET * COLUMNS + n
            && ShowsFirst(map_, n + 1, s, screen[Position(d) := DrawnCell(d)])
  {
    var p := MAP_Y_OFFSET * COLUMNS + n;
    assert p % COLUMNS == x && p / COLUMNS == y + MAP_Y_OFFSET;
  }

  // ---------- map_draw

  /** The colour that the byte and mask of the loops select is the colour of the cell they have reached. */
  lemma BitColor(map_: Map, i: nat, j: nat, b: nat)
    requires i < MAP_HEIGHT && j < ROW_BYTES && b < 8
    ensures ColorAt(map_, 8 * j + b, i) == if map_[i * ROW_BYTES + j] & Mask(b) == 0 then WALL_COLOR else FLOOR_COLOR
  {
    MaskShifts(b);
    assert (8 * j + b) / 8 == j && (8 * j + b) % 8 == b && i * MAP_WIDTH / 8 == i * ROW_BYTES;
  }

  function BitDraw(map_: Map, i: nat, j: nat, mask: bv8, jj: nat): Draw
    requires i < MAP_HEIGHT && j < ROW_BYTES
  {
    var color := if map_[i * ROW_BYTES + j] & mask == 0 then WALL_COLOR else FLOOR_COLOR;
    Draw(' ', i + MAP_Y_OFFSET, jj, color, color)
  }

  lemma BitDrawn(c: Con, map_: Map, i: nat, j: nat, b: nat, s: seq<nat>)
    requires OnScreen(c) && i < MAP_HEIGHT && j < ROW_BYTES && b < 8
    requires ShowsFirst(map_, i * MAP_WIDTH + 8 * j + b, s, c.screen)
    ensures var d := BitDraw(map_, i, j, Mask(b), 8 * j + b);
            Drawable(d) && OnScreen(Write(c, FormatOf(d)).con)
            && ShowsFirst(map_, i * MAP_WIDTH + 8 * j + b + 1, s, Write(c, FormatOf(d)).con.screen)
  {
    hide ShowsFirst;
    BitColor(map_, i, j, b);
    ShowsMore(map_, i * MAP_WIDTH + 8 * j + b, s, c.screen, 8 * j + b, i);
    var d := BitDraw(map_, i, j, Mask(b), 8 * j + b);
    OneDraw(c, d);
    assert Write(c, FormatOf(d)).con.screen == c.screen[Position(d) := DrawnCell(d)];
  }

  /** The body of the innermost loop: one bit. */
  method DrawBit(g: Graphics, con: Console, map_: Map, i: nat, j: nat, mask: bv8, jj: nat, ghost b: nat, ghost s: seq<nat>)
    requires g.Valid() && con.Valid() && OnScreen(con.Abs())
    requires i < MAP_HEIGHT && j < ROW_BYTES && b < 8 && mask == Mask(b) && jj == 8 * j + b
    requires ShowsFirst(map_, i * MAP_WIDTH + jj, s, con.screen[..])
    modifies g.format, con, con.screen
    ensures g.Valid() && con.Valid() && OnScreen(con.Abs())
    ensures ShowsFirst(map_, i * MAP_WIDTH + jj + 1, s, con.screen[..])
  {
    hide ShowsFirst;
    ghost var c := con.Abs();
    var color := if map_[i * ROW_BYTES + j] & mask == 0 then WALL_COLOR else FLOOR_COLOR;
    BitDrawn(c, map_, i, j, b, s);
    g.DrawIj(con, ' ', i + MAP_Y_OFFSET, jj, color, color);
    assert con.Abs() == Write(c, FormatOf(BitDraw(map_, i, j, mask, jj))).con;
  }

  /** The while loop over the bits of one byte. */
  method DrawByte(g: Graphics, con: Console, map_: Map, i: nat, j: nat, ghost s: seq<nat>)
    requires g.Valid() && con.Valid() && OnScreen(con.Abs()) && i < MAP_HEIGHT && j < ROW_BYTES
    requires ShowsFirst(map_, i * MAP_WIDTH + 8 * j, s, con.screen[..])
    modifies g.format, con, con.screen
    ensures g.Valid() && con.Valid() && OnScreen(con.Abs())
    ensures ShowsFirst(map_, i * MAP_WIDTH + 8 * j + 8, s, con.screen[..])
  {
    var mask: bv8, jj: nat := 0x80, 8 * j;
    ghost var b := 0;
    while mask != 0
      invariant g.Valid() && con.Valid() && OnScreen(con.Abs())
      invariant b <= 8 && mask == Mask(b) && jj == 8 * j + b
      invariant ShowsFirst(map_, i * MAP_WIDTH + jj, s, con.screen[..])
      decreases 8 - b
    {
      DrawBit(g, con, map_, i, j, mask, jj, b, s);
      MaskShifts(b);
      mask := mask >> 1;
      jj := jj + 1;
      b := b + 1;
    }
    if b < 8 {
      MaskShifts(b);
    }
  }

  /** map_draw: every map cell shows a wall exactly when map_is_wall says so, and nothing else changes. */
  method MapDraw(g: Graphics, con: Console, map_: Map)
    requires g.Valid() && con.Valid() && OnScreen(con.Abs())
    modifies g.format, con, con.screen
    ensures g.Valid() && con.Valid() && OnScreen(con.Abs())
    ensures ShowsFirst(map_, MAP_WIDTH * MAP_HEIGHT, old(con.screen[..]), con.screen[..])
  {
    ghost var s := con.screen[..];
    for i := 0 to MAP_HEIGHT
      invariant g.Valid() && con.Valid() && OnScreen(con.Abs())
      invariant ShowsFirst(map_, i * MAP_WIDTH, s, con.screen[..])
    {
      for j := 0 to ROW_BYTES
        invariant g.Valid() && con.Valid() && OnScreen(con.Abs())
        invariant ShowsFirst(map_, i * MAP_WIDTH + 8 * j, s, con.screen[..])
      {
        DrawByte(g, con, map_, i, j, s);
      }
    }
  }

  /** Walls and floors cannot be mistaken for each other: the lookup can be read off the screen. */
  lemma ScreenTellsWalls(map_: Map, s: seq<nat>, screen: seq<nat>, x: nat, y: nat)
    requires ShowsFirst(map_, MAP_WIDTH * MAP_HEIGHT, s, screen) && x < MAP_WIDTH && y < MAP_HEIGHT
    ensures screen[(y + MAP_Y_OFFSET) * COLUMNS + x] == BlockCell(WALL_COLOR) <==> IsWall(map_, x, y)
    ensures screen[(y + MAP_Y_OFFSET) * COLUMNS + x] == BlockCell(FLOOR_COLOR) <==> !IsWall(map_, x, y)
  {
    var p := (y + MAP_Y_OFFSET) * COLUMNS + x;
    assert p % COLUMNS == x && p / COLUMNS == y + MAP_Y_OFFSET;
  }

  /** The words on the screen: a blank, bright green on green for a wall, dark gray on black for a floor. */
  lemma BlockWords()
    ensures BlockCell(WALL_COLOR) == 0x2A20 && BlockCell(FLOOR_COLOR) == 0x0820
  {
  }
}
