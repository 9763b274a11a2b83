// What each console command in a buffer does, told by cells, cursor and colours; and what is printed of a command
// that is rejected.

module Commands {
  import opened Common
  import opened Decimal
  import opened ConsoleSpec
  import opened Framebuffer
  import opened Texts

  /** A command in buf from position i to j: '[', digits, and a character that ends it. */
  ghost predicate IsCommand(buf: seq<char>, i: nat, j: nat) {
    i < j < |buf| && buf[i] == '[' && AllDigits(buf[i + 1..j]) && !IsDigit(buf[j]) && buf[j] != ';'
  }

  /** The commands that are carried out: all but the attributes need no number, and the cursor needs none or two. */
  predicate CarriedOut(op: char, number: bool) {
    op == 'D' || op == 'K' || ((op == 'H' || op == 'f') && !number) || (op == 'm' && number)
  }

  function ParamsIn(digits: seq<char>): seq<nat> {
    if digits == [] then [] else [Value(digits)]
  }

  lemma CommandEnds(o: Out, buf: seq<char>, i: nat, j: nat)
    requires Sized(o) && IsCommand(buf, i, j)
    ensures var all := ParamsIn(buf[i + 1..j]);
            && (CarriedOut(buf[j], j > i + 1) <==> IsLetter(buf[j]) && Known(buf[j], |all|))
            && Plain(o, buf, i) == if CarriedOut(buf[j], j > i + 1)
                                   then Plain(o.(con := Execute(o.con, buf[j], all)), buf, j + 1)
                                   else Plain(o.(con := PrintAll(o.con, buf[i + 1..j + 1])), buf, j + 1)
  {
    SkipDigits(o, buf, i + 1, i + 1, i + 1, j, []);
    assert WithParam(buf, i + 1, j, []) == ParamsIn(buf[i + 1..j]);
  }

  // ---------- commands that are rejected or not complete

  /** A command that is not carried out leaves its own text on the screen, all but the '[', and does not count. */
  lemma Rejected(o: Out, buf: seq<char>, i: nat, j: nat) returns (r: Out)
    requires Sized(o) && OnScreen(o.con) && IsCommand(buf, i, j) && !CarriedOut(buf[j], j > i + 1)
    ensures Sized(r) && Plain(o, buf, i) == Plain(r, buf, j + 1)
    ensures r.written == o.written && Depicts(r.con, o.con, buf[i + 1..j + 1])
  {
    hide Depicts, Plain, PrintAll;
    CommandEnds(o, buf, i, j);
    r := o.(con := PrintAll(o.con, buf[i + 1..j + 1]));
    DepictsNothing(o.con);
    PrintAllDepicts(o.con, [], o.con, buf[i + 1..j + 1]);
    assert [] + buf[i + 1..j + 1] == buf[i + 1..j + 1];
  }

  ghost predicate DigitsAndSeparators(s: seq<char>) {
    forall i :: 0 <= i < |s| ==> IsDigit(s[i]) || s[i] == ';'
  }

  lemma {:induction false} SpoiltFrom(o: Out, buf: seq<char>, start: nat, param: nat, i: nat, j: nat, params: seq<nat>)
    requires Sized(o) && start <= i <= j < |buf| && |params| <= MAX_PARAMS && DigitsAndSeparators(buf[i..j])
    requires !IsDigit(buf[j]) && buf[j] !in "DKHfm;"
    ensures Command(o, buf, start, param, i, params) == Plain(o.(con := PrintAll(o.con, buf[start..j + 1])), buf, j + 1)
    decreases j - i
  {
    if i < j {
      assert buf[i] == buf[i..j][0] && buf[i + 1..j] == buf[i..j][1..];
      if IsDigit(buf[i]) {
        SpoiltFrom(o, buf, start, param, i + 1, j, params);
      } else {
        var more := WithParam(buf, param, i, params);
        SpoiltFrom(o, buf, start, if more == params then param else i + 1, i + 1, j, more);
      }
    }
  }

  /** Whatever numbers it has, a command that does not exist is printed like that. */
  lemma NotACommand(o: Out, buf: seq<char>, i: nat, j: nat) returns (r: Out)
    requires Sized(o) && OnScreen(o.con) && i < j < |buf| && buf[i] == '[' && DigitsAndSeparators(buf[i + 1..j])
    requires !IsDigit(buf[j]) && buf[j] !in "DKHfm;"
    ensures Sized(r) && Plain(o, buf, i) == Plain(r, buf, j + 1)
    ensures r.written == o.written && Depicts(r.con, o.con, buf[i + 1..j + 1])
  {
    hide Depicts, PrintAll;
    SpoiltFrom(o, buf, i + 1, i + 1, i + 1, j, []);
    r := o.(con := PrintAll(o.con, buf[i + 1..j + 1]));
    DepictsNothing(o.con);
    PrintAllDepicts(o.con, [], o.con, buf[i + 1..j + 1]);
    assert [] + buf[i + 1..j + 1] == buf[i + 1..j + 1];
  }

  /** A command that the buffer ends in is dropped. */
  lemma Unfinished(o: Out, buf: seq<char>, i: nat)
    requires Sized(o) && i < |buf| && buf[i] == '[' && AllDigits(buf[i + 1..])
    ensures Plain(o, buf, i) == o
  {
    assert buf[i + 1..] == buf[i + 1..|buf|];
    SkipDigits(o, buf, i + 1, i + 1, i + 1, |buf|, []);
  }

  // ---------- the screen and the cursor

  /** 'D' moves every line up and leaves the last one empty; the cursor stays. */
  lemma ScrollUp(o: Out, buf: seq<char>, i: nat, j: nat) returns (r: Out)
    requires Sized(o) && IsCommand(buf, i, j) && buf[j] == 'D'
    ensures Sized(r) && Plain(o, buf, i) == Plain(r, buf, j + 1)
    ensures r == Out(o.con.(screen := r.con.screen), o.written)
    ensures forall p :: 0 <= p < 1920 ==> r.con.screen[p] == o.con.screen[p + 80]
    ensures forall p :: 1920 <= p < 2000 ==> r.con.screen[p] == 512
  {
    hide Plain;
    CommandEnds(o, buf, i, j);
    r := o.(con := Execute(o.con, 'D', ParamsIn(buf[i + 1..j])));
  }

  /** 'K' steps back one column and empties the cell there; from column 0 it steps to column 255. */
  lemma EraseBack(o: Out, buf: seq<char>, i: nat, j: nat) returns (r: Out)
    requires Sized(o) && OnScreen(o.con) && IsCommand(buf, i, j) && buf[j] == 'K'
    ensures Sized(r) && Plain(o, buf, i) == Plain(r, buf, j + 1)
    ensures r == Out(o.con.(x := r.con.x, screen := r.con.screen), o.written)
    ensures r.con.x == if o.con.x == 0 then 255 else o.con.x - 1
    ensures forall p :: 0 <= p < 2000 ==>
              r.con.screen[p] == if p == 80 * o.con.y + r.con.x then 512 else o.con.screen[p]
  {
    hide Plain;
    CommandEnds(o, buf, i, j);
    r := o.(con := Execute(o.con, 'K', ParamsIn(buf[i + 1..j])));
  }

  /** 'H' and 'f' without numbers put the cursor in the first cell if it is on the screen. */
  lemma Home(o: Out, buf: seq<char>, i: nat) returns (r: Out)
    requires Sized(o) && IsCommand(buf, i, i + 1) && (buf[i + 1] == 'H' || buf[i + 1] == 'f')
    ensures Sized(r) && Plain(o, buf, i) == Plain(r, buf, i + 2) && r.written == o.written
    ensures r.con == if o.con.x < 80 && o.con.y < 25 then o.con.(x := 0, y := 0) else o.con
  {
    hide Plain;
    CommandEnds(o, buf, i, i + 1);
    r := o.(con := Execute(o.con, buf[i + 1], []));
  }

  /** With two numbers they put it in that column and row, modulo 256, if it is on the screen. */
  lemma GoTo(o: Out, buf: seq<char>, i: nat, a: nat, j: nat) returns (r: Out)
    requires Sized(o) && i + 1 < a && a + 1 < j < |buf|
    requires buf[i] == '[' && buf[a] == ';' && (buf[j] == 'H' || buf[j] == 'f')
    requires AllDigits(buf[i + 1..a]) && AllDigits(buf[a + 1..j])
    ensures Sized(r) && Plain(o, buf, i) == Plain(r, buf, j + 1) && r.written == o.written
    ensures r.con == if o.con.x < 80 && o.con.y < 25
                     then o.con.(x := Value(buf[i + 1..a]) % 256, y := Value(buf[a + 1..j]) % 256) else o.con
  {
    hide Plain;
    TwoParameters(o, buf, i, a, j);
    r := o.(con := Execute(o.con, buf[j], [Value(buf[i + 1..a]), Value(buf[a + 1..j])]));
  }

  // ---------- colours

  /** The colours of the commands count red, green, blue from the lowest bit up; those of the screen the other way
      round. */
  function Swapped(k: nat): nat {
    k % 2 * 4 + k / 2 % 2 * 2 + k / 4
  }

  /** The screen's colour for command colour k: eight more if it is bright. */
  function Screen(k: nat, bright: bool): nat {
    Swapped(k) + if bright then 8 else 0
  }

  /** The attributes after attribute a: background and foreground swap the bits of the colour, except that dim
      magenta as a foreground does nothing and white as a background is bright when it should be dim. */
  function Coloured(c: Con, a: nat): Con {
    if a == 0 then c.(fg := 2, bg := 0, blink := 0, bright := 1)
    else if a == 1 || a == 2 then c.(bright := 2 - a)
    else if a == 5 then c.(blink := if c.blink == 0 then 1 else 0)
    else if a == 7 then c.(fg := 0, bg := 2)
    else if a == 8 then c.(fg := 0)
    else if 30 <= a < 38 then (if a == 35 && c.bright == 0 then c else c.(fg := Screen(a - 30, c.bright != 0)))
    else if 40 <= a < 48 then c.(bg := Screen(a - 40, if a == 47 then c.bright == 0 else c.bright != 0))
    else c
  }

  lemma AttributeIs(c: Con, a: nat)
    requires c.bright <= 1
    ensures SetAttribute(c, a) == Coloured(c, a)
  {
    if 30 <= a < 38 {
      ForegroundIs(c, a);
    } else if 40 <= a < 48 {
      BackgroundIs(c, a);
    }
  }

  lemma ForegroundIs(c: Con, a: nat)
    requires c.bright <= 1 && 30 <= a < 38
    ensures SetAttribute(c, a) == Coloured(c, a)
  {
  }

  lemma BackgroundIs(c: Con, a: nat)
    requires c.bright <= 1 && 40 <= a < 48
    ensures SetAttribute(c, a) == Coloured(c, a)
  {
  }

  /** 'm' with one number sets that attribute and touches neither screen nor cursor. */
  lemma OneAttribute(o: Out, buf: seq<char>, i: nat, j: nat)
    requires Sized(o) && o.con.bright <= 1 && IsCommand(buf, i, j) && buf[j] == 'm' && j > i + 1
    ensures Plain(o, buf, i) == Plain(o.(con := Coloured(o.con, Value(buf[i + 1..j]))), buf, j + 1)
  {
    hide Plain;
    var a := Value(buf[i + 1..j]);
    CommandEnds(o, buf, i, j);
    assert [a][1..] == [];
    AttributeIs(o.con, a);
    assert SetAttributes(o.con, [a]) == SetAttributes(SetAttribute(o.con, a), []);
  }

  /** With two numbers, one attribute after the other. */
  lemma TwoAttributes(o: Out, buf: seq<char>, i: nat, a: nat, j: nat)
    requires Sized(o) && o.con.bright <= 1 && i + 1 < a && a + 1 < j < |buf|
    requires buf[i] == '[' && buf[a] == ';' && buf[j] == 'm' && AllDigits(buf[i + 1..a]) && AllDigits(buf[a + 1..j])
    ensures Plain(o, buf, i)
         == Plain(o.(con := Coloured(Coloured(o.con, Value(buf[i + 1..a])), Value(buf[a + 1..j]))), buf, j + 1)
  {
    hide Plain;
    var x, y := Value(buf[i + 1..a]), Value(buf[a + 1..j]);
    TwoParameters(o, buf, i, a, j);
    AttributeIs(o.con, x);
    AttributeIs(Coloured(o.con, x), y);
    assert [x, y][1..] == [y] && [y][1..] == [];
    assert SetAttributes(Coloured(o.con, x), [y]) == SetAttributes(SetAttribute(Coloured(o.con, x), y), []);
  }

  lemma MiddleParameter(o: Out, buf: seq<char>, start: nat, x: nat, a: nat, b: nat)
    requires Sized(o) && start <= a < b < |buf| && buf[b] == ';' && AllDigits(buf[a..b])
    ensures Command(o, buf, start, a, a, [x]) == Command(o, buf, start, b + 1, b + 1, [x, Value(buf[a..b])])
  {
    SkipDigits(o, buf, start, a, a, b, [x]);
    assert WithParam(buf, a, b, [x]) == [x, Value(buf[a..b])];
  }

  lemma ThirdParameter(o: Out, buf: seq<char>, start: nat, x: nat, y: nat, a: nat, b: nat)
    requires Sized(o) && start <= a < b < |buf| && buf[b] == 'm' && AllDigits(buf[a..b])
    ensures Command(o, buf, start, a, a, [x, y])
         == Plain(o.(con := SetAttributes(o.con, [x, y, Value(buf[a..b])])), buf, b + 1)
  {
    SkipDigits(o, buf, start, a, a, b, [x, y]);
    assert WithParam(buf, a, b, [x, y]) == [x, y, Value(buf[a..b])];
  }

  /** With three, the third after the second. */
  lemma ThreeAttributes(o: Out, buf: seq<char>, i: nat, a: nat, b: nat, j: nat)
    requires Sized(o) && o.con.bright <= 1 && i + 1 < a && a + 1 < b && b + 1 < j < |buf|
    requires buf[i] == '[' && buf[a] == buf[b] == ';' && buf[j] == 'm'
    requires AllDigits(buf[i + 1..a]) && AllDigits(buf[a + 1..b]) && AllDigits(buf[b + 1..j])
    ensures var c := Coloured(Coloured(o.con, Value(buf[i + 1..a])), Value(buf[a + 1..b]));
            Plain(o, buf, i) == Plain(o.(con := Coloured(c, Value(buf[b + 1..j]))), buf, j + 1)
  {
    hide Plain, Command, SetAttributes, Coloured, Value;
    var x, y, z := Value(buf[i + 1..a]), Value(buf[a + 1..b]), Value(buf[b + 1..j]);
    FirstParameter(o, buf, i, a);
    MiddleParameter(o, buf, i + 1, x, a + 1, b);
    ThirdParameter(o, buf, i + 1, x, y, b + 1, j);
    InTurn(o.con, x, y, z);
  }

  /** A fourth number is ignored. */
  lemma FourthIgnored(o: Out, buf: seq<char>, i: nat, a: nat, b: nat, c: nat, j: nat)
    requires Sized(o) && o.con.bright <= 1 && i + 1 < a && a + 1 < b && b + 1 < c < j < |buf|
    requires buf[i] == '[' && buf[a] == buf[b] == buf[c] == ';' && buf[j] == 'm'
    requires AllDigits(buf[i + 1..a]) && AllDigits(buf[a + 1..b]) && AllDigits(buf[b + 1..c]) && AllDigits(buf[c + 1..j])
    ensures var con := Coloured(Coloured(o.con, Value(buf[i + 1..a])), Value(buf[a + 1..b]));
            Plain(o, buf, i) == Plain(o.(con := Coloured(con, Value(buf[b + 1..c]))), buf, j + 1)
  {
    hide Plain, Command, SetAttributes, Coloured, Value;
    var x, y, z := Value(buf[i + 1..a]), Value(buf[a + 1..b]), Value(buf[b + 1..c]);
    FirstParameter(o, buf, i, a);
    MiddleParameter(o, buf, i + 1, x, a + 1, b);
    LastRoom(o, buf, i + 1, x, y, b + 1, c);
    NoMoreParameters(o, buf, i + 1, [x, y, z], c + 1, j);
    InTurn(o.con, x, y, z);
  }

  lemma LastRoom(o: Out, buf: seq<char>, start: nat, x: nat, y: nat, a: nat, b: nat)
    requires Sized(o) && start <= a < b < |buf| && buf[b] == ';' && AllDigits(buf[a..b])
    ensures Command(o, buf, start, a, a, [x, y]) == Command(o, buf, start, b + 1, b + 1, [x, y, Value(buf[a..b])])
  {
    SkipDigits(o, buf, start, a, a, b, [x, y]);
    assert WithParam(buf, a, b, [x, y]) == [x, y, Value(buf[a..b])];
  }

  lemma NoMoreParameters(o: Out, buf: seq<char>, start: nat, params: seq<nat>, a: nat, j: nat)
    requires Sized(o) && start <= a <= j < |buf| && buf[j] == 'm' && AllDigits(buf[a..j]) && |params| == 3
    ensures Command(o, buf, start, a, a, params) == Plain(o.(con := SetAttributes(o.con, params)), buf, j + 1)
  {
    SkipDigits(o, buf, start, a, a, j, params);
    assert WithParam(buf, a, j, params) == params;
  }

  /** A separator without numbers counts as the number 0: "[;m" resets the attributes. */
  lemma LoneSeparator(o: Out, buf: seq<char>, i: nat)
    requires Sized(o) && o.con.bright <= 1 && i + 2 < |buf| && buf[i] == '[' && buf[i + 1] == ';' && buf[i + 2] == 'm'
    ensures Plain(o, buf, i) == Plain(o.(con := Coloured(o.con, 0)), buf, i + 3)
  {
    assert buf[i + 1..i + 2] == [';'] && [';'][..0] == [] && Value([';']) == 0;
    assert WithParam(buf, i + 1, i + 1, []) == [] && WithParam(buf, i + 1, i + 2, []) == [0];
    assert Plain(o, buf, i) == Command(o, buf, i + 1, i + 1, i + 1, []) == Command(o, buf, i + 1, i + 1, i + 2, []);
    assert [0][1..] == [];
    AttributeIs(o.con, 0);
    assert SetAttributes(o.con, [0]) == SetAttributes(SetAttribute(o.con, 0), []);
  }

  lemma InTurn(c: Con, x: nat, y: nat, z: nat)
    requires c.bright <= 1
    ensures SetAttributes(c, [x, y, z]) == Coloured(Coloured(Coloured(c, x), y), z)
  {
    hide SetAttribute, Coloured;
    var c1, c2 := SetAttribute(c, x), SetAttribute(SetAttribute(c, x), y);
    BrightStays(c, x);
    BrightStays(c1, y);
    AttributeIs(c, x);
    AttributeIs(c1, y);
    AttributeIs(c2, z);
    assert [x, y, z][1..] == [y, z] && [y, z][1..] == [z] && [z][1..] == [];
    assert SetAttributes(c1, [y, z]) == SetAttributes(c2, [z]) == SetAttributes(SetAttribute(c2, z), []);
  }

  lemma BrightStays(c: Con, a: nat)
    requires c.bright <= 1
    ensures SetAttribute(c, a).bright <= 1
  {
  }

  lemma SwappedIs(k: nat)
    requires k < 8
    ensures Swapped(k) == [0, 4, 2, 6, 1, 5, 3, 7][k]
  {
  }

  lemma ShadesAre(k: nat)
    requires k < 8
    ensures Shade(k) == 8 + Swapped(k) && BackShade(k) % 8 == Swapped(k) < 8
  {
    hide Swapped;
    SwappedIs(k);
  }

  /** The word of a drawn cell: the character, the bright foreground, and the background without its bright bit. */
  lemma DrawnWord(d: Draw)
    requires Drawable(d)
    ensures DrawnCell(d) == d.ch as int % 256 + 256 * (8 + Swapped(d.fg)) + 4096 * Swapped(d.bg)
  {
    hide Shade, BackShade, Swapped;
    ShadesAre(d.fg);
    ShadesAre(d.bg);
  }
}
