/** The VGA text console of vga.c: an 80 x 25 buffer scrolled in place, against
    a sheet that only ever grows. */
module Console {
  import opened Words

  type Cell = x: int | 0 <= x < 0x1_0000

  /** A C char, which is signed */
  type Char = x: int | -128 <= x < 128

  type Color = x: int | 0 <= x < 16

  /** vga_encode_char under a given colour */
  function Encoded(color: Cell, ch: Char): Cell
    requires color % 256 == 0
  {
    color + ch % 256
  }

  function Blank(color: Cell): (r: seq<Cell>)
    requires color % 256 == 0
    ensures |r| == 80
  {
    seq(80, _ => Encoded(color, 32))
  }

  function Blanks(color: Cell): (rs: seq<seq<Cell>>)
    requires color % 256 == 0
    ensures |rs| == 25 && forall i :: 0 <= i < 25 ==> rs[i] == Blank(color)
  {
    seq(25, _ => Blank(color))
  }

  /** A sheet of rows, the cursor on it, and the colour written with. */
  datatype Sheet = Sheet(rows: seq<seq<Cell>>, row: nat, col: nat, color: Cell)

  /** At least 25 rows of 80 cells, the cursor in one of the last 25. */
  ghost predicate Valid(s: Sheet) {
    25 <= |s.rows| <= s.row + 25
    && s.row < |s.rows|
    && s.col < 80
    && s.color % 256 == 0
    && forall i :: 0 <= i < |s.rows| ==> |s.rows[i]| == 80
  }

  datatype Event = Put(ch: Char) | Colored(fg: Color, bg: Color) | Cleared

  /** The cursor after ch, before the end of the row is looked at. */
  function Moved(s: Sheet, ch: Char): Sheet
    requires Valid(s)
  {
    if ch == 8 then s.(col := if s.col > 0 then s.col - 1 else 0)
    else if ch == 10 then s.(col := 0, row := s.row + 1)
    else if ch == 13 then s.(col := 0)
    else if ch == 9 then s.(col := s.col + 4 - s.col % 4)
    else if ch >= 32 then
      var line: seq<Cell> := s.rows[s.row][s.col := Encoded(s.color, ch)];
      s.(rows := s.rows[s.row := line], col := s.col + 1)
    else s
  }

  function Wrapped(s: Sheet): Sheet {
    if s.col >= 80 then s.(col := 0, row := s.row + 1) else s
  }

  /** A cursor below the sheet gets a fresh row, blank in the current colour. */
  function Grown(s: Sheet): Sheet
    requires s.color % 256 == 0
  {
    if s.row == |s.rows| then s.(rows := s.rows + [Blank(s.color)]) else s
  }

  /** Writing one character on a sheet that never scrolls. */
  function Written(s: Sheet, ch: Char): (t: Sheet)
    requires Valid(s)
    ensures Valid(t)
  {
    Grown(Wrapped(Moved(s, ch)))
  }

  function Step(s: Sheet, e: Event): (t: Sheet)
    requires Valid(s)
    ensures Valid(t)
  {
    match e
    case Put(ch) => Written(s, ch)
    case Colored(fg, bg) => s.(color := fg * 256 + bg * 4096)
    case Cleared => s.(color := 0x0F00, rows := s.rows[..|s.rows| - 25] + Blanks(0x0F00))
  }

  function Run(s: Sheet, es: seq<Event>): (t: Sheet)
    requires Valid(s)
    ensures Valid(t)
  {
    if es == [] then s else Step(Run(s, es[..|es| - 1]), es[|es| - 1])
  }

  /** The last 25 rows of a sheet */
  function Window(s: Sheet): (w: Sheet)
    requires Valid(s)
    ensures Valid(w) && |w.rows| == 25
  {
    s.(rows := s.rows[|s.rows| - 25..], row := s.row - (|s.rows| - 25))
  }

  /** Scrolling is exact: forgetting the rows above the window before a step or
      after it makes no difference. */
  lemma WindowStep(s: Sheet, e: Event)
    requires Valid(s)
    ensures Window(Step(Window(s), e)) == Window(Step(s, e))
  {
    match e
    case Put(ch) => WindowWritten(s, ch);
    case Colored(fg, bg) => WindowColored(s, fg, bg);
    case Cleared => WindowCleared(s);
  }

  lemma WindowColored(s: Sheet, fg: Color, bg: Color)
    requires Valid(s)
    ensures Window(Step(Window(s), Colored(fg, bg))) == Window(Step(s, Colored(fg, bg)))
  {
    assert Window(s).rows[0..] == Window(s).rows;
  }

  lemma WindowCleared(s: Sheet)
    requires Valid(s)
    ensures Window(Step(Window(s), Cleared)) == Window(Step(s, Cleared))
  {
    assert Step(s, Cleared).rows[|s.rows| - 25..] == Blanks(0x0F00);
    assert Step(Window(s), Cleared).rows[0..] == Blanks(0x0F00);
  }

  lemma WindowWritten(s: Sheet, ch: Char)
    requires Valid(s)
    ensures Window(Written(Window(s), ch)) == Window(Written(s, ch))
  {
    var w, d := Window(s), |s.rows| - 25;
    var s1, w1 := Moved(s, ch), Moved(w, ch);
    MovedBelow(s, w, d, ch);
    assert Below(Wrapped(s1), Wrapped(w1), d);
    GrownBelow(Wrapped(s1), Wrapped(w1), d);
    SameWindow(Written(s, ch), Written(w, ch), d);
  }

  /** w is s without its first d rows. */
  ghost predicate Below(s: Sheet, w: Sheet, d: nat) {
    d <= |s.rows| && d <= s.row
    && w == Sheet(s.rows[d..], s.row - d, s.col, s.color)
  }

  lemma MovedBelow(s: Sheet, w: Sheet, d: nat, ch: Char)
    requires Valid(s) && Valid(w) && Below(s, w, d)
    ensures Below(Moved(s, ch), Moved(w, ch), d)
  {
    if ch >= 32 {
      var line: seq<Cell> := s.rows[s.row][s.col := Encoded(s.color, ch)];
      assert s.rows[s.row := line][d..] == s.rows[d..][s.row - d := line];
    }
  }

  lemma GrownBelow(s: Sheet, w: Sheet, d: nat)
    requires s.color % 256 == 0 && Below(s, w, d)
    ensures Below(Grown(s), Grown(w), d)
  {
    assert (s.rows + [Blank(s.color)])[d..] == s.rows[d..] + [Blank(s.color)];
  }

  lemma SameWindow(s: Sheet, w: Sheet, d: nat)
    requires Valid(s) && Valid(w) && Below(s, w, d)
    ensures Window(s) == Window(w)
  {
    var n := |w.rows| - 25;
    assert s.rows[d..][n..] == s.rows[d + n..];
  }

  /** Over a whole run the scrolling console shows the last 25 rows of the sheet
      written without scrolling. */
  lemma {:induction false} WindowRun(s: Sheet, es: seq<Event>)
    requires Valid(s)
    ensures Window(Run(s, es)) == Scrolled(Window(s), es)
  {
    if es != [] {
      WindowRun(s, es[..|es| - 1]);
      WindowStep(Run(s, es[..|es| - 1]), es[|es| - 1]);
    }
  }

  /** The run of the console itself: after each event only 25 rows are kept. */
  function Scrolled(w: Sheet, es: seq<Event>): (t: Sheet)
    requires Valid(w) && |w.rows| == 25
    ensures Valid(t) && |t.rows| == 25
  {
    if es == [] then w else Window(Step(Scrolled(w, es[..|es| - 1]), es[|es| - 1]))
  }

  /** Rows that have left the window are never written again. */
  lemma {:induction false} HistoryKept(s: Sheet, es: seq<Event>)
    requires Valid(s)
    ensures |s.rows| <= |Run(s, es).rows|
    ensures Run(s, es).rows[..|s.rows| - 25] == s.rows[..|s.rows| - 25]
  {
    if es != [] {
      var t := Run(s, es[..|es| - 1]);
      HistoryKept(s, es[..|es| - 1]);
      var u := Step(t, es[|es| - 1]);
      HistoryStep(t, es[|es| - 1]);
      var n := |s.rows| - 25;
      assert u.rows[..n] == u.rows[..|t.rows| - 25][..n];
      assert t.rows[..n] == t.rows[..|t.rows| - 25][..n];
    }
  }

  lemma HistoryStep(s: Sheet, e: Event)
    requires Valid(s)
    ensures |s.rows| <= |Step(s, e).rows|
    ensures Step(s, e).rows[..|s.rows| - 25] == s.rows[..|s.rows| - 25]
  {
  }

  function Puts(text: seq<Char>): (es: seq<Event>)
    ensures |es| == |text|
  {
    seq(|text|, i requires 0 <= i < |text| => Put(text[i]))
  }

  // --------------------------------------------------------- control characters

  /** Backspace takes back the cursor movement of a printable character, */
  lemma BackspaceBack(s: Sheet, ch: Char)
    requires Valid(s) && ch >= 32 && s.col < 79
    ensures var t := Run(s, [Put(ch), Put(8)]); t.row == s.row && t.col == s.col
  {
    RunTwo(s, Put(ch), Put(8));
  }

  /** stays at the start of a row, and changes no cell. */
  lemma BackspaceKeeps(s: Sheet)
    requires Valid(s)
    ensures var t := Run(s, [Put(8)]);
      t.rows == s.rows && t.color == s.color && t.row == s.row && (s.col == 0 ==> t == s)
  {
    RunOne(s, Put(8));
  }

  /** A carriage return goes to the start of the row. */
  lemma CarriageReturn(s: Sheet)
    requires Valid(s)
    ensures var t := Run(s, [Put(13)]); t.rows == s.rows && t.color == s.color && t.row == s.row && t.col == 0
  {
    RunOne(s, Put(13));
  }

  /** A tab goes to the next multiple of four, or to the start of the next row. */
  lemma TabStops(s: Sheet)
    requires Valid(s)
    ensures var t := Run(s, [Put(9)]);
      && t.color == s.color && s.rows <= t.rows && t.col % 4 == 0
      && (if s.col < 76 then t.row == s.row && s.col < t.col <= s.col + 4 else t.row == s.row + 1 && t.col == 0)
  {
    RunOne(s, Put(9));
    TabStop(s.col);
  }

  lemma TabStop(col: nat)
    ensures var c := col + 4 - col % 4; c % 4 == 0 && col < c <= col + 4 && (c >= 80 <==> col >= 76)
  {
    assert col == col / 4 * 4 + col % 4;
  }

  /** A newline goes to the start of the next row. */
  lemma NewLine(s: Sheet)
    requires Valid(s)
    ensures var t := Run(s, [Put(10)]);
      t.color == s.color && s.rows <= t.rows && t.row == s.row + 1 && t.col == 0
  {
    RunOne(s, Put(10));
  }

  /** All other characters below the blank, the negative ones among them, do nothing. */
  lemma OthersIgnored(s: Sheet, ch: Char)
    requires Valid(s) && ch < 32 && ch !in {8, 9, 10, 13}
    ensures Run(s, [Put(ch)]) == s
  {
    RunOne(s, Put(ch));
  }

  /** A character is written where the cursor is, with its code in the low byte,
      the foreground in the next four bits and the background in the highest. */
  lemma ColoredCell(s: Sheet, fg: Color, bg: Color, ch: Char)
    requires Valid(s) && ch >= 32
    ensures var t := Run(s, [Colored(fg, bg), Put(ch)]);
      |t.rows| >= |s.rows| && Shows(t.rows[s.row][s.col], fg, bg, ch)
  {
    EncodedColor(fg, bg, ch);
    WrittenColored(s, fg, bg, ch, fg * 256 + bg * 4096);
  }

  predicate Shows(c: Cell, fg: Color, bg: Color, ch: Char) {
    c % 256 == ch && c / 256 % 16 == fg && c / 4096 == bg
  }

  lemma WrittenColored(s: Sheet, fg: Color, bg: Color, ch: Char, color: Cell)
    requires Valid(s) && ch >= 32 && color == fg * 256 + bg * 4096 && color % 256 == 0
    ensures var t := Run(s, [Colored(fg, bg), Put(ch)]);
      |t.rows| >= |s.rows| && t.rows[s.row][s.col] == Encoded(color, ch)
  {
    RunTwo(s, Colored(fg, bg), Put(ch));
    WrittenAtCursor(Step(s, Colored(fg, bg)), ch);
  }

  lemma WrittenAtCursor(s: Sheet, ch: Char)
    requires Valid(s) && ch >= 32
    ensures var t := Written(s, ch); |t.rows| >= |s.rows| && t.rows[s.row][s.col] == Encoded(s.color, ch)
  {
  }

  lemma EncodedColor(fg: Color, bg: Color, ch: Char)
    requires ch >= 32
    ensures (fg * 256 + bg * 4096) % 256 == 0 && 0 <= fg * 256 + bg * 4096 < 0x1_0000
    ensures Shows(Encoded(fg * 256 + bg * 4096, ch), fg, bg, ch)
  {
    NibbleBits(fg, bg);
    SmallCode(ch);
    CellParts(fg, bg, ch);
  }

  lemma SmallCode(ch: Char)
    requires ch >= 32
    ensures ch % 256 == ch
  {
  }

  lemma CellParts(fg: Color, bg: Color, ch: nat)
    requires ch < 256
    ensures var c := fg * 256 + bg * 4096 + ch; c % 256 == ch && c / 256 % 16 == fg && c / 4096 == bg
  {
    var n := fg + 16 * bg;
    Digits256(ch, n);
    assert n % 16 == fg && n / 16 == bg;
    assert (ch + 256 * n) / 4096 == (ch + 256 * n) / 256 / 16;
  }

  lemma Digits256(b: nat, n: nat)
    requires b < 256
    ensures (b + 256 * n) % 256 == b && (b + 256 * n) / 256 == n
  {
  }

  /** Clearing leaves white blanks on black, and the cursor where it is. */
  lemma ClearedCells(s: Sheet, i: nat, j: nat)
    requires Valid(s) && |s.rows| - 25 <= i < |s.rows| && j < 80
    ensures var t := Run(s, [Cleared]);
      |t.rows| == |s.rows| && t.rows[i][j] == 0x0F20 && t.row == s.row && t.col == s.col && t.color == 0x0F00
  {
    RunOne(s, Cleared);
  }

  lemma RunOne(s: Sheet, e: Event)
    requires Valid(s)
    ensures Run(s, [e]) == Step(s, e)
  {
    assert [e][..0] == [] && Run(s, []) == s;
  }

  lemma RunTwo(s: Sheet, e: Event, f: Event)
    requires Valid(s)
    ensures Run(s, [e, f]) == Step(Step(s, e), f)
  {
    assert [e, f][..1] == [e];
    RunOne(s, e);
  }

  /** Row i, column j holds character 80 i + j of the text, or a blank after its end. */
  ghost predicate Reads(rows: seq<seq<Cell>>, color: Cell, text: seq<Char>)
    requires color % 256 == 0
  {
    forall i, j :: 0 <= i < |rows| && 0 <= j < |rows[i]| ==>
      rows[i][j] == Encoded(color, if 80 * i + j < |text| then text[80 * i + j] else 32)
  }

  /** Text of printable characters, however long, is laid out in reading order
      on a sheet that was empty, and nothing else is written. */
  lemma {:induction false} PlainText(color: Cell, text: seq<Char>)
    requires color % 256 == 0
    requires Printable(text)
    ensures var t := Run(Sheet(Blanks(color), 0, 0, color), Puts(text));
            t.row * 80 + t.col == |text| && t.color == color
            && Reads(t.rows, color, text)
  {
    if text != [] {
      var most := text[..|text| - 1];
      PlainText(color, most);
      assert Puts(text)[..|text| - 1] == Puts(most);
      var s := Run(Sheet(Blanks(color), 0, 0, color), Puts(most));
      PlainChar(s, most, text[|text| - 1]);
      assert most + [text[|text| - 1]] == text;
    }
  }

  lemma PlainChar(s: Sheet, most: seq<Char>, ch: Char)
    requires Valid(s) && ch >= 32 && s.row * 80 + s.col == |most|
    requires Reads(s.rows, s.color, most)
    ensures var t := Written(s, ch);
            t.row * 80 + t.col == |most| + 1 && t.color == s.color
            && Reads(t.rows, s.color, most + [ch])
  {
    var t := Written(s, ch);
    forall i, j | 0 <= i < |t.rows| && 0 <= j < |t.rows[i]|
      ensures t.rows[i][j] == Encoded(s.color, if 80 * i + j <= |most| then (most + [ch])[80 * i + j] else 32)
    {
      if i < |s.rows| {
        assert s.rows[i][j] == Encoded(s.color, if 80 * i + j < |most| then most[80 * i + j] else 32);
        assert 80 * i + j == |most| <==> i == s.row && j == s.col;
      }
    }
  }

  ghost predicate Printable(text: seq<Char>) {
    forall i :: 0 <= i < |text| ==> text[i] >= 32
  }

  /** A row that holds the line and is blank after it */
  function Padded(color: Cell, line: seq<Char>): (r: seq<Cell>)
    requires color % 256 == 0 && |line| <= 80
    ensures |r| == 80
  {
    seq<Cell>(80, j requires 0 <= j < 80 => Encoded(color, if j < |line| then line[j] else 32))
  }

  lemma {:induction false} RunConcat(s: Sheet, a: seq<Event>, b: seq<Event>)
    requires Valid(s)
    ensures Run(s, a + b) == Run(Run(s, a), b)
    decreases |b|
  {
    if b == [] {
      assert a + b == a;
    } else {
      RunConcat(s, a, b[..|b| - 1]);
      assert (a + b)[..|a + b| - 1] == a + b[..|b| - 1];
    }
  }

  lemma {:induction false} LineWritten(s: Sheet, line: seq<Char>)
    requires Valid(s) && s.col == 0 && s.rows[s.row] == Blank(s.color)
    requires |line| < 80 && Printable(line)
    ensures Run(s, Puts(line)) == s.(rows := s.rows[s.row := Padded(s.color, line)], col := |line|)
  {
    if line == [] {
      assert Padded(s.color, line) == Blank(s.color);
    } else {
      var most := line[..|line| - 1];
      LineWritten(s, most);
      assert Puts(line)[..|line| - 1] == Puts(most);
      assert Padded(s.color, line) == Padded(s.color, most)[|most| := Encoded(s.color, line[|most|])];
    }
  }

  lemma LineEnded(s: Sheet, line: seq<Char>)
    requires Valid(s) && s.col == 0 && s.rows[s.row] == Blank(s.color)
    requires |line| < 80 && Printable(line)
    ensures var rows := s.rows[s.row := Padded(s.color, line)];
            Run(s, Puts(line) + [Put(10)]) == Grown(s.(rows := rows, row := s.row + 1))
  {
    LineWritten(s, line);
    assert (Puts(line) + [Put(10)])[..|line|] == Puts(line);
  }

  /** Each line followed by a newline */
  function Lines(lines: seq<seq<Char>>): seq<Event> {
    if lines == [] then []
    else Lines(lines[..|lines| - 1]) + (Puts(lines[|lines| - 1]) + [Put(10)])
  }

  /** Rows below the first |lines| are blank; the cursor is on the first of them. */
  ghost predicate LaidOut(t: Sheet, color: Cell, lines: seq<seq<Char>>)
    requires color % 256 == 0
    requires forall i :: 0 <= i < |lines| ==> |lines[i]| < 80
  {
    t.row == |lines| && t.col == 0 && t.color == color
    && forall i :: 0 <= i < |t.rows| ==>
         t.rows[i] == if i < |lines| then Padded(color, lines[i]) else Blank(color)
  }

  lemma LinesStep(s: Sheet, most: seq<seq<Char>>, line: seq<Char>)
    requires Valid(s) && forall i :: 0 <= i < |most| ==> |most[i]| < 80
    requires LaidOut(s, s.color, most) && |line| < 80 && Printable(line)
    ensures LaidOut(Run(s, Puts(line) + [Put(10)]), s.color, most + [line])
  {
    LineEnded(s, line);
  }

  lemma LinesRun(s: Sheet, lines: seq<seq<Char>>)
    requires Valid(s) && lines != []
    ensures var most, line := lines[..|lines| - 1], lines[|lines| - 1];
      Run(s, Lines(lines)) == Run(Run(s, Lines(most)), Puts(line) + [Put(10)])
  {
    RunConcat(s, Lines(lines[..|lines| - 1]), Puts(lines[|lines| - 1]) + [Put(10)]);
  }

  /** Any number of short lines come out one to a row. */
  lemma {:induction false} LinesLaidOut(color: Cell, lines: seq<seq<Char>>)
    requires color % 256 == 0
    requires forall i :: 0 <= i < |lines| ==> |lines[i]| < 80 && Printable(lines[i])
    ensures LaidOut(Run(Sheet(Blanks(color), 0, 0, color), Lines(lines)), color, lines)
  {
    if lines != [] {
      var most, line := lines[..|lines| - 1], lines[|lines| - 1];
      LinesLaidOut(color, most);
      var empty := Sheet(Blanks(color), 0, 0, color);
      assert most + [line] == lines;
      LinesSnoc(empty, most, line);
    }
  }

  lemma LinesSnoc(s: Sheet, most: seq<seq<Char>>, line: seq<Char>)
    requires Valid(s) && forall i :: 0 <= i < |most| ==> |most[i]| < 80
    requires |line| < 80 && Printable(line) && LaidOut(Run(s, Lines(most)), s.color, most)
    requires Run(s, Lines(most)).color == s.color
    ensures LaidOut(Run(s, Lines(most + [line])), s.color, most + [line])
  {
    var lines := most + [line];
    assert lines[..|lines| - 1] == most;
    LinesRun(s, lines);
    LinesStep(Run(s, Lines(most)), most, line);
  }

  /** The 25 rows of a buffer of 2000 cells */
  function Rows(cells: seq<Cell>): (rs: seq<seq<Cell>>)
    requires |cells| == 2000
    ensures |rs| == 25
    ensures forall i :: 0 <= i < 25 ==> |rs[i]| == 80
    ensures forall i, j :: 0 <= i < 25 && 0 <= j < 80 ==> rs[i][j] == cells[80 * i + j]
  {
    seq(25, i requires 0 <= i < 25 => cells[80 * i..80 * i + 80])
  }

  lemma OrAbove(q: nat, b: nat, k: nat)
    requires b < Pow2(k)
    ensures Or(q * Pow2(k), b) == q * Pow2(k) + b
  {
    OrHigh(q, 0, b, k);
    assert Or(0, b) == b;
  }

  lemma OrByte(q: nat, b: nat)
    requires b < 256
    ensures Or(q * 256, b) == q * 256 + b
  {
    assert Pow2(8) == 256;
    OrAbove(q, b, 8);
  }

  lemma ColorBits(color: Cell, ch: Char)
    requires color % 256 == 0
    ensures Or(color, ch % 256) == Encoded(color, ch)
  {
    OrByte(color / 256, ch % 256);
    assert color == color / 256 * 256;
  }

  lemma LowByteClear(q: nat)
    ensures q * 256 % 256 == 0
  {
  }

  lemma NibbleBits(fg: Color, bg: Color)
    ensures Or(fg * 256, bg * 4096) == fg * 256 + bg * 4096 < 0x1_0000
    ensures (fg * 256 + bg * 4096) % 256 == 0
  {
    assert Pow2(12) == 16 * Pow2(8) == 4096 by {
      assert Pow2(8) == 256;
    }
    OrAbove(bg, fg * 256, 12);
    assert fg * 256 + bg * 4096 == (fg + 16 * bg) * 256;
    LowByteClear(fg + 16 * bg);
    OrComm(fg * 256, bg * 4096);
  }

  /** The statics of vga.c */
  class Vga {
    const buffer: array<Cell>
    var color: Cell
    var row: nat
    var col: nat

    ghost predicate Ok()
      reads this, buffer
    {
      buffer.Length == 2000 && row < 25 && col < 80 && color % 256 == 0
    }

    /** The console as a sheet of exactly 25 rows */
    ghost function View(): (s: Sheet)
      reads this, buffer
      requires Ok()
      ensures Valid(s) && |s.rows| == 25
    {
      Sheet(Rows(buffer[..]), row, col, color)
    }

    constructor (cells: array<Cell>)
      requires cells.Length == 2000
      ensures Ok() && buffer == cells && row == 0 && col == 0 && color == 0x0F00
    {
      buffer := cells;
      color, row, col := 0x0F00, 0, 0;
    }

    method EncodeChar(ch: Char) returns (r: Cell)
      requires color % 256 == 0
      ensures r == Encoded(color, ch)
    {
      ColorBits(color, ch);
      var ch16 := ch % 256;
      r := Or(color, ch16);
    }

    /** scroll: shifts the buffer up one row in place, if the cursor is below it. */
    method Scroll()
      requires buffer.Length == 2000 && color % 256 == 0
      modifies buffer
      ensures row != 25 ==> buffer[..] == old(buffer[..])
      ensures row == 25 ==> Rows(buffer[..]) == Rows(old(buffer[..]))[1..] + [Blank(color)]
    {
      if row == 25 {
        var i := 1;
        while i < 25
          invariant 1 <= i <= 25
          invariant forall k :: 0 <= k < 80 * (i - 1) ==> buffer[k] == old(buffer[k + 80])
          invariant forall k :: 80 * (i - 1) <= k < 2000 ==> buffer[k] == old(buffer[k])
        {
          var j := 0;
          while j < 80
            invariant 0 <= j <= 80
            invariant forall k :: 0 <= k < 80 * (i - 1) + j ==> buffer[k] == old(buffer[k + 80])
            invariant forall k :: 80 * (i - 1) + j <= k < 2000 ==> buffer[k] == old(buffer[k])
          {
            var idx := i * 80 + j;
            buffer[idx - 80] := buffer[idx];
            j := j + 1;
          }
          i := i + 1;
        }
        i := 0;
        while i < 80
          invariant 0 <= i <= 80
          invariant forall k :: 0 <= k < 1920 ==> buffer[k] == old(buffer[k + 80])
          invariant forall k :: 1920 <= k < 1920 + i ==> buffer[k] == Encoded(color, 32)
        {
          var c := EncodeChar(32);
          buffer[24 * 80 + i] := c;
          i := i + 1;
        }
        ScrolledRows(old(buffer[..]), buffer[..], color);
      }
    }

    method SetColor(fg: Color, bg: Color)
      requires Ok()
      modifies this`color
      ensures Ok() && View() == Step(old(View()), Colored(fg, bg))
    {
      NibbleBits(fg, bg);
      color := Or(fg * 256, bg * 4096);
    }

    /** vga_init: clears the buffer and leaves the cursor where it is. */
    method Init()
      requires Ok()
      modifies this`color, buffer
      ensures Ok() && View() == Step(old(View()), Cleared)
    {
      SetColor(15, 0);
      var h := 0;
      while h < 25
        invariant 0 <= h <= 25 && color == 0x0F00
        invariant forall k :: 0 <= k < 80 * h ==> buffer[k] == Encoded(color, 32)
      {
        var w := 0;
        while w < 80
          invariant 0 <= w <= 80 && color == 0x0F00
          invariant forall k :: 0 <= k < 80 * h + w ==> buffer[k] == Encoded(color, 32)
        {
          var idx := h * 80 + w;
          var c := EncodeChar(32);
          buffer[idx] := c;
          w := w + 1;
        }
        h := h + 1;
      }
      BlankRows(buffer[..], color);
      assert old(View()).rows[..0] + Blanks(0x0F00) == Blanks(0x0F00);
    }

    /** vga_putchar: the window of what an unscrolled sheet would show */
    method PutChar(ch: Char)
      requires Ok()
      modifies this, buffer
      ensures Ok() && View() == Window(Written(old(View()), ch))
    {
      ghost var s := View();
      var pos := row * 80 + col;
      if ch == 8 {
        if col > 0 {
          col := col - 1;
        }
      } else if ch == 10 {
        col := 0;
        row := row + 1;
      } else if ch == 13 {
        col := 0;
      } else if ch == 9 {
        col := col + (4 - col % 4);
      } else if ch >= 32 {
        var c := EncodeChar(ch);
        WrittenCell(buffer[..], row, col, c);
        buffer[pos] := c;
        col := col + 1;
      }
      assert row == Moved(s, ch).row && col == Moved(s, ch).col && color == s.color;
      assert Rows(buffer[..]) == Moved(s, ch).rows;
      if col >= 80 {
        col := 0;
        row := row + 1;
      }
      ghost var t := Wrapped(Moved(s, ch));
      assert row == t.row && col == t.col && Rows(buffer[..]) == t.rows;
      if row == 25 {
        Scroll();
        row := 24;
        col := 0;
      }
      WindowOfGrown(s, ch);
    }

    /** kputs with its output on the screen: the characters before the NUL */
    method PutString(text: seq<Char>)
      requires Ok()
      modifies this, buffer
      ensures Ok() && View() == Window(Run(old(View()), Puts(text)))
    {
      ghost var s := View();
      assert Puts(text)[..0] == [] && Window(s) == s;
      var i := 0;
      while i < |text|
        invariant 0 <= i <= |text| && Ok()
        invariant View() == Window(Run(s, Puts(text)[..i]))
      {
        PutChar(text[i]);
        assert Puts(text)[..i + 1][..i] == Puts(text)[..i];
        WindowStep(Run(s, Puts(text)[..i]), Put(text[i]));
        i := i + 1;
      }
      assert Puts(text)[..i] == Puts(text);
    }
  }

  lemma ScrolledRows(before: seq<Cell>, after: seq<Cell>, color: Cell)
    requires |before| == |after| == 2000 && color % 256 == 0
    requires forall k :: 0 <= k < 1920 ==> after[k] == before[k + 80]
    requires forall k :: 1920 <= k < 2000 ==> after[k] == Encoded(color, 32)
    ensures Rows(after) == Rows(before)[1..] + [Blank(color)]
  {
    var rs := Rows(before)[1..] + [Blank(color)];
    forall i | 0 <= i < 25 ensures Rows(after)[i] == rs[i] {
      assert forall j :: 0 <= j < 80 ==> Rows(after)[i][j] == after[80 * i + j];
    }
  }

  lemma BlankRows(cells: seq<Cell>, color: Cell)
    requires |cells| == 2000 && color % 256 == 0
    requires forall k :: 0 <= k < 2000 ==> cells[k] == Encoded(color, 32)
    ensures Rows(cells) == Blanks(color)
  {
    forall i | 0 <= i < 25 ensures Rows(cells)[i] == Blank(color) {
      assert forall j :: 0 <= j < 80 ==> Rows(cells)[i][j] == cells[80 * i + j];
    }
  }

  lemma WrittenCell(cells: seq<Cell>, row: nat, col: nat, c: Cell)
    requires |cells| == 2000 && row < 25 && col < 80
    ensures var line: seq<Cell> := Rows(cells)[row][col := c];
            Rows(cells[row * 80 + col := c]) == Rows(cells)[row := line]
  {
    var line: seq<Cell> := Rows(cells)[row][col := c];
    var after: seq<Cell> := cells[row * 80 + col := c];
    forall i | 0 <= i < 25 ensures Rows(after)[i] == Rows(cells)[row := line][i] {
      forall j | 0 <= j < 80 ensures Rows(after)[i][j] == Rows(cells)[row := line][i][j] {
        assert 80 * i + j == row * 80 + col <==> i == row && j == col;
      }
    }
  }

  lemma WindowOfGrown(s: Sheet, ch: Char)
    requires Valid(s) && |s.rows| == 25
    ensures var t := Wrapped(Moved(s, ch));
            Window(Written(s, ch)) ==
              if t.row == 25 then Sheet(t.rows[1..] + [Blank(s.color)], 24, t.col, s.color) else t
  {
    GrownLast(s, Wrapped(Moved(s, ch)));
  }

  /** The window of a sheet of 25 rows that may have to grow */
  lemma GrownLast(s: Sheet, t: Sheet)
    requires Valid(s) && |t.rows| == 25 && t.row <= 25 && t.color == s.color && Valid(Grown(t))
    ensures Window(Grown(t)) == if t.row == 25 then Sheet(t.rows[1..] + [Blank(t.color)], 24, t.col, t.color) else t
  {
    if t.row == 25 {
      assert (t.rows + [Blank(t.color)])[1..] == t.rows[1..] + [Blank(t.color)];
    } else {
      assert t.rows[0..] == t.rows;
    }
  }
}
