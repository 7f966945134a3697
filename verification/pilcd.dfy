/**
 * The frame-buffer side of the ST7735 display driver (rpi/pilcd.c): the
 * RGB565 colour packing, the screen size per rotation, the address window
 * with its write cursor, pixel pushes into a byte frame buffer, glyph
 * drawing, filling the buffer with one colour, and the decoding of the
 * initialisation command table. Writes to the SPI bus become values the
 * methods return.
 */
module PiLcd {
  import opened Wrappers
  import opened Arith

  const TftWidth: int := 128
  const TftHeight: int := 160
  const FontPixWide: int := 6
  const FontPixHigh: int := 8

  /** The number of bytes of the 256-glyph font table, six column bytes per glyph. */
  const FontSize: int := 256 * 6

  const Black: bv16 := 0x0000
  const Blue: bv16 := 0x001F
  const Red: bv16 := 0xF800
  const Green: bv16 := 0x07E0
  const Cyan: bv16 := 0x07FF
  const Magenta: bv16 := 0xF81F
  const Yellow: bv16 := 0xFFE0
  const White: bv16 := 0xFFFF

  // ---------------------------------------------------------------------
  // Colours

  /** `lcdColor565`: the top 5 bits of red, top 6 of green and top 5 of blue, packed high to low. */
  function Color565(r: bv8, g: bv8, b: bv8): (c: bv16)
    ensures (c >> 11) as bv8 == r >> 3
    ensures ((c >> 5) & 0x3F) as bv8 == g >> 2
    ensures (c & 0x1F) as bv8 == b >> 3
  {
    ((r & 0xF8) as bv16 << 8) | ((g & 0xFC) as bv16 << 3) | (b >> 3) as bv16
  }

  /** The byte a colour puts first in the frame buffer. */
  function Hi(color: bv16): bv8
  {
    (color >> 8) as bv8
  }

  /** The byte a colour puts second in the frame buffer. */
  function Lo(color: bv16): bv8
  {
    (color & 0xFF) as bv8
  }

  /** The two buffer bytes give the colour back. */
  lemma {:induction false} HiLoColor(color: bv16)
    ensures (Hi(color) as bv16 << 8) | Lo(color) as bv16 == color
  {
  }

  // ---------------------------------------------------------------------
  // Screen size

  /** The (width, height) `lcdSetRotation` sets for a rotation mode; None when it ignores the mode. */
  function ScreenSize(mode: int): (r: Option<(int, int)>)
    ensures r.None? <==> mode > 3 || mode < 0
    ensures r.Some? ==> r.value.0 * r.value.1 == TftWidth * TftHeight
  {
    if mode == 0 || mode == 2 then Some((TftWidth, TftHeight))
    else if mode == 1 || mode == 3 then Some((TftHeight, TftWidth))
    else None
  }

  /** The rotations that turn the panel by a quarter swap its width and height. */
  lemma {:induction false} QuarterTurnSwaps(mode: int)
    requires 0 <= mode < 3
    ensures ScreenSize(mode + 1).Some? && ScreenSize(mode).Some?
    ensures ScreenSize(mode + 1).value == (ScreenSize(mode).value.1, ScreenSize(mode).value.0)
  {
  }

  // ---------------------------------------------------------------------
  // The address window and its write cursor

  /** `x_start`, `x_end`, `y_start`, `y_end`, `x_loc`, `y_loc`. */
  datatype Cursor = Cursor(xStart: int, xEnd: int, yStart: int, yEnd: int, xLoc: int, yLoc: int)

  predicate InWindow(c: Cursor)
  {
    c.xStart <= c.xLoc <= c.xEnd && c.yStart <= c.yLoc <= c.yEnd
  }

  predicate OnScreen(c: Cursor, width: int, height: int)
  {
    0 <= c.xStart && c.xEnd < width && 0 <= c.yStart && c.yEnd < height
  }

  predicate SameWindow(a: Cursor, b: Cursor)
  {
    a.xStart == b.xStart && a.xEnd == b.xEnd && a.yStart == b.yStart && a.yEnd == b.yEnd
  }

  /** The cursor `lcdSetAddrWindow` leaves: the window given, the cursor at its top left corner. */
  function Window(x0: int, y0: int, x1: int, y1: int): Cursor
  {
    Cursor(x0, x1, y0, y1, x0, y0)
  }

  /**
   * `update_row_column_addr`: one step right, or back to the left edge of
   * the window and one row down; the row stays on the last row of the window.
   */
  function Advance(c: Cursor, width: int, height: int): (r: Cursor)
    ensures SameWindow(r, c)
    ensures InWindow(c) ==> InWindow(r) && r.yLoc >= c.yLoc
    ensures r.xLoc == c.xLoc + 1 || (r.xLoc == c.xStart && (r.yLoc == c.yLoc + 1 || r.yLoc == c.yEnd))
  {
    var x := c.xLoc + 1;
    if x > c.xEnd || x == width then
      var y := c.yLoc + 1;
      c.(xLoc := c.xStart, yLoc := if y > c.yEnd || y == height then c.yEnd else y)
    else
      c.(xLoc := x)
  }

  /** `n` cursor steps. */
  function Walk(c: Cursor, width: int, height: int, n: nat): Cursor
  {
    if n == 0 then c else Advance(Walk(c, width, height, n - 1), width, height)
  }

  /**
   * Inside a window that lies on the screen, the cursor visits the window
   * row by row: after `q * w + r` steps from the top left corner (`w` the
   * window's width, `r < w`) it is in column `r` and row `q` of the window.
   */
  lemma {:induction false} WalkVisitsRowByRow(c: Cursor, width: int, height: int, q: nat, r: nat)
    requires c.xLoc == c.xStart <= c.xEnd && c.yLoc == c.yStart <= c.yEnd && OnScreen(c, width, height)
    requires r < c.xEnd - c.xStart + 1 && q < c.yEnd - c.yStart + 1
    ensures Walk(c, width, height, q * (c.xEnd - c.xStart + 1) + r) == c.(xLoc := c.xStart + r, yLoc := c.yStart + q)
    decreases q, r
  {
    var w := c.xEnd - c.xStart + 1;
    var m := q * w + r;
    if r > 0 {
      WalkVisitsRowByRow(c, width, height, q, r - 1);
      assert Walk(c, width, height, m) == Advance(Walk(c, width, height, m - 1), width, height);
    } else if q > 0 {
      WalkVisitsRowByRow(c, width, height, q - 1, w - 1);
      Distrib(q - 1, 1, w);
      assert m - 1 == (q - 1) * w + (w - 1);
      assert Walk(c, width, height, m) == Advance(Walk(c, width, height, m - 1), width, height);
    }
  }

  /** The buffer offset of the cursor's pixel: two bytes per pixel, row by row. */
  function CellIndex(c: Cursor, width: int, height: int): (i: int)
    requires 0 <= c.xLoc < width && 0 <= c.yLoc < height
    ensures 0 <= i && i + 1 < 2 * Cells(width, height)
  {
    CellsBelow(c.xLoc, c.yLoc, width, height);
    2 * (c.xLoc + Cells(width, c.yLoc))
  }

  /** The cursor's pixel is on the screen. */
  predicate CursorOnScreen(c: Cursor, width: int, height: int)
  {
    0 <= c.xLoc < width && 0 <= c.yLoc < height
  }

  /** The colour pixel `k` of a frame buffer holds, its high byte first. */
  function PixelAt(b: seq<bv8>, k: int): bv16
    requires 0 <= k && 2 * k + 1 < |b|
  {
    (b[2 * k] as bv16 << 8) | b[2 * k + 1] as bv16
  }

  /** The buffer after `lcdPushColor` writes `color` at the cursor, high byte first. */
  function Write(b: seq<bv8>, c: Cursor, width: int, height: int, color: bv16): (r: seq<bv8>)
    requires CursorOnScreen(c, width, height) && |b| >= 2 * Cells(width, height)
    ensures |r| == |b|
  {
    var i := CellIndex(c, width, height);
    b[i := Hi(color)][i + 1 := Lo(color)]
  }

  /** A push stores the colour's high byte at the cursor's offset, its low byte next, and changes no other byte. */
  lemma {:induction false} WriteTouchesOnlyCell(b: seq<bv8>, c: Cursor, width: int, height: int, color: bv16)
    requires CursorOnScreen(c, width, height) && |b| >= 2 * Cells(width, height)
    ensures var r := Write(b, c, width, height, color);
      var i := CellIndex(c, width, height);
      r[i] == Hi(color) && r[i + 1] == Lo(color)
      && forall k :: 0 <= k < |b| && k != i && k != i + 1 ==> r[k] == b[k]
  {
  }

  /** The pixel under the cursor reads back as the colour written there. */
  lemma {:induction false} WriteReadsBack(b: seq<bv8>, c: Cursor, width: int, height: int, color: bv16)
    requires CursorOnScreen(c, width, height) && |b| >= 2 * Cells(width, height)
    ensures var k := c.xLoc + c.yLoc * width;
      0 <= k && 2 * k + 1 < |b| && PixelAt(Write(b, c, width, height, color), k) == color
  {
    var r := Write(b, c, width, height, color);
    var i := CellIndex(c, width, height);
    CellsProduct(width, c.yLoc);
    assert r[i] == Hi(color) && r[i + 1] == Lo(color);
    HiLoColor(color);
  }

  /** A frame buffer of the screen's size and a write cursor inside a window on the screen. */
  predicate Canvas(b: seq<bv8>, c: Cursor, width: int, height: int)
  {
    InWindow(c) && OnScreen(c, width, height) && |b| >= 2 * Cells(width, height)
  }

  /**
   * The buffer and cursor after a run of pixel steps: a step with a colour
   * is a `lcdPushColor`, a step without one only advances the cursor.
   */
  function Paint(b: seq<bv8>, c: Cursor, width: int, height: int, steps: seq<Option<bv16>>): (r: (seq<bv8>, Cursor))
    requires Canvas(b, c, width, height)
    ensures |r.0| == |b| && InWindow(r.1) && SameWindow(r.1, c) && Canvas(r.0, r.1, width, height)
    decreases |steps|
  {
    if steps == [] then (b, c)
    else
      var prev := Paint(b, c, width, height, steps[..|steps| - 1]);
      var s := steps[|steps| - 1];
      (if s.Some? then Write(prev.0, prev.1, width, height, s.value) else prev.0, Advance(prev.1, width, height))
  }

  // ---------------------------------------------------------------------
  // Glyphs

  /** A character code read as unsigned, the index of its glyph in the font table. */
  type Code = c: int | 0 <= c < 256

  /** The mask of bit `row` of a glyph column byte, as `lcdDrawChar`'s `line` steps through it. */
  function RowMask(row: int): (m: bv8)
    requires 0 <= row < FontPixHigh
    ensures m != 0
  {
    [0x01, 0x02, 0x04, 0x08, 0x10, 0x20, 0x40, 0x80][row]
  }

  /** Shifting the mask left by one moves it to the next row, as `line = line << 1` does. */
  lemma {:induction false} RowMaskShift(row: int, line: bv8)
    requires 0 <= row < FontPixHigh - 1 && line == RowMask(row)
    ensures line << 1 == RowMask(row + 1)
  {
  }

  /** `line = line << 1` at the end of font row `row`: the mask of the next row, if there is one. */
  method NextLine(row: int, line: bv8) returns (next: bv8)
    requires 0 <= row < FontPixHigh && line == RowMask(row)
    ensures row < FontPixHigh - 1 ==> next == RowMask(row + 1)
  {
    if row < FontPixHigh - 1 {
      RowMaskShift(row, line);
    }
    next := line << 1;
  }

  /** Some bit of `b` selected by `mask` is set. */
  predicate Lit(b: bv8, mask: bv8)
  {
    b & mask != 0
  }

  /** Bit `row` of the glyph's column byte: the font pixel at (`col`, `row`) is lit. */
  predicate FontBit(font: seq<bv8>, c: Code, row: int, col: int)
    requires |font| == FontSize && 0 <= row < FontPixHigh && 0 <= col < FontPixWide
  {
    Lit(font[FontIndex(c, col)], RowMask(row))
  }

  /** The table index of column `col` of glyph `c`, reading the character as unsigned. */
  function FontIndex(c: Code, col: int): (i: int)
    requires 0 <= col < FontPixWide
    ensures 0 <= i < FontSize
  {
    c * FontPixWide + col
  }

  /** The character as the C `char` the source indexes with: codes from 128 up are negative. */
  function SignedChar(c: Code): int
  {
    if c < 128 then c else c - 256
  }

  /** `Font[c * FONT_PIX_WIDE + col]` as written, with a signed character. */
  function FontIndexAsWritten(c: Code, col: int): (i: int)
    requires 0 <= col < FontPixWide
    ensures c < 128 ==> i == FontIndex(c, col)
  {
    SignedChar(c) * FontPixWide + col
  }

  /** Every character from 128 up reads before the start of the font table, so glyphs 128..255 are never drawn. */
  lemma {:induction false} UpperGlyphsUnreachable(c: Code, col: int)
    requires 128 <= c && 0 <= col < FontPixWide
    ensures FontIndexAsWritten(c, col) < 0
    ensures FontIndexAsWritten(c, col) == FontIndex(c, col) - 256 * FontPixWide
  {
  }

  /** What one pixel step of a glyph does: the text colour on a lit bit, else the background, or nothing when transparent. */
  function Act(font: seq<bv8>, c: Code, fg: bv16, bg: bv16, transparent: bool, row: int, col: int): Option<bv16>
    requires |font| == FontSize && 0 <= row < FontPixHigh && 0 <= col < FontPixWide
  {
    StepOf(FontBit(font, c, row, col), fg, bg, transparent)
  }

  /** The step for a lit or unlit font pixel. */
  function StepOf(on: bool, fg: bv16, bg: bv16, transparent: bool): Option<bv16>
  {
    if on then Some(fg) else if transparent then None else Some(bg)
  }

  /** The steps of the font row that the mask `line` selects: column `col` follows bit `line` of its column byte. */
  function RowPattern(font: seq<bv8>, c: Code, fg: bv16, bg: bv16, transparent: bool, line: bv8): (pr: seq<Option<bv16>>)
    requires |font| == FontSize
    ensures |pr| == FontPixWide
    ensures forall col :: 0 <= col < FontPixWide ==> pr[col] == StepOf(Lit(font[FontIndex(c, col)], line), fg, bg, transparent)
  {
    [StepOf(Lit(font[FontIndex(c, 0)], line), fg, bg, transparent),
     StepOf(Lit(font[FontIndex(c, 1)], line), fg, bg, transparent),
     StepOf(Lit(font[FontIndex(c, 2)], line), fg, bg, transparent),
     StepOf(Lit(font[FontIndex(c, 3)], line), fg, bg, transparent),
     StepOf(Lit(font[FontIndex(c, 4)], line), fg, bg, transparent),
     StepOf(Lit(font[FontIndex(c, 5)], line), fg, bg, transparent)]
  }

  /** The glyph as a matrix of steps, one row of six per font row. */
  function Pattern(font: seq<bv8>, c: Code, fg: bv16, bg: bv16, transparent: bool): (p: seq<seq<Option<bv16>>>)
    requires |font| == FontSize
    ensures |p| == FontPixHigh
  {
    [RowPattern(font, c, fg, bg, transparent, 0x01), RowPattern(font, c, fg, bg, transparent, 0x02),
     RowPattern(font, c, fg, bg, transparent, 0x04), RowPattern(font, c, fg, bg, transparent, 0x08),
     RowPattern(font, c, fg, bg, transparent, 0x10), RowPattern(font, c, fg, bg, transparent, 0x20),
     RowPattern(font, c, fg, bg, transparent, 0x40), RowPattern(font, c, fg, bg, transparent, 0x80)]
  }

  /** Row `row` of a glyph's pattern is the font row that mask `RowMask(row)` selects. */
  lemma {:induction false} PatternRow(font: seq<bv8>, c: Code, fg: bv16, bg: bv16, transparent: bool, row: int)
    requires |font| == FontSize && 0 <= row < FontPixHigh
    ensures Pattern(font, c, fg, bg, transparent)[row] == RowPattern(font, c, fg, bg, transparent, RowMask(row))
  {
    var p := Pattern(font, c, fg, bg, transparent);
    if row < 4 {
      if row == 0 { assert p[0] == RowPattern(font, c, fg, bg, transparent, 0x01); }
      else if row == 1 { assert p[1] == RowPattern(font, c, fg, bg, transparent, 0x02); }
      else if row == 2 { assert p[2] == RowPattern(font, c, fg, bg, transparent, 0x04); }
      else { assert p[3] == RowPattern(font, c, fg, bg, transparent, 0x08); }
    } else {
      if row == 4 { assert p[4] == RowPattern(font, c, fg, bg, transparent, 0x10); }
      else if row == 5 { assert p[5] == RowPattern(font, c, fg, bg, transparent, 0x20); }
      else if row == 6 { assert p[6] == RowPattern(font, c, fg, bg, transparent, 0x40); }
      else { assert p[7] == RowPattern(font, c, fg, bg, transparent, 0x80); }
    }
  }

  /** Every row of a glyph's pattern has six steps. */
  lemma {:induction false} PatternWidth(font: seq<bv8>, c: Code, fg: bv16, bg: bv16, transparent: bool)
    requires |font| == FontSize
    ensures forall row :: 0 <= row < |Pattern(font, c, fg, bg, transparent)| ==> |Pattern(font, c, fg, bg, transparent)[row]| == FontPixWide
  {
    forall row | 0 <= row < FontPixHigh
      ensures |Pattern(font, c, fg, bg, transparent)[row]| == FontPixWide
    {
      PatternRow(font, c, fg, bg, transparent, row);
    }
  }

  /** Step (`col`, `row`) of a glyph's pattern is what that font pixel does. */
  lemma {:induction false} PatternAt(font: seq<bv8>, c: Code, fg: bv16, bg: bv16, transparent: bool, row: int, col: int)
    requires |font| == FontSize && 0 <= row < FontPixHigh && 0 <= col < FontPixWide
    ensures |Pattern(font, c, fg, bg, transparent)[row]| == FontPixWide
    ensures Pattern(font, c, fg, bg, transparent)[row][col] == Act(font, c, fg, bg, transparent, row, col)
  {
    PatternRow(font, c, fg, bg, transparent, row);
  }

  /** `n` copies of a run of steps (none for `n` <= 0). */
  function Repeat(n: int, s: seq<Option<bv16>>): (r: seq<Option<bv16>>)
    ensures n <= 0 ==> r == []
    decreases n
  {
    if n <= 0 then [] else Repeat(n - 1, s) + s
  }

  /** The steps of one screen line through pattern columns 0..`n`-1, each `scale` times. */
  function Line(p: seq<Option<bv16>>, scale: int, n: int): seq<Option<bv16>>
    requires 0 <= n <= |p|
    decreases n
  {
    if n == 0 then [] else Line(p, scale, n - 1) + Repeat(scale, [p[n - 1]])
  }

  /** The steps of pattern rows 0..`n`-1, each drawn as `scale` screen lines. */
  function Block(p: seq<seq<Option<bv16>>>, scale: int, n: int): seq<Option<bv16>>
    requires 0 <= n <= |p|
    decreases n
  {
    if n == 0 then [] else Block(p, scale, n - 1) + Repeat(scale, Line(p[n - 1], scale, |p[n - 1]|))
  }

  /** Every pixel step of a glyph, in the order `lcdDrawChar` makes them. */
  function GlyphSteps(font: seq<bv8>, c: Code, fg: bv16, bg: bv16, scale: int, transparent: bool): seq<Option<bv16>>
    requires |font| == FontSize
  {
    Block(Pattern(font, c, fg, bg, transparent), scale, FontPixHigh)
  }

  lemma {:induction false} RepeatLength(n: nat, s: seq<Option<bv16>>)
    ensures |Repeat(n, s)| == n * |s|
  {
    if n > 0 {
      RepeatLength(n - 1, s);
      Distrib(n - 1, 1, |s|);
    }
  }

  /** Copy `k` of a repeated run holds the run. */
  lemma {:induction false} RepeatAt(n: nat, s: seq<Option<bv16>>, k: nat, j: nat)
    requires k < n && j < |s|
    ensures |Repeat(n, s)| == n * |s| && 0 <= k * |s| + j < n * |s| && Repeat(n, s)[k * |s| + j] == s[j]
  {
    RepeatLength(n, s);
    RepeatLength(n - 1, s);
    CellBelow(j, k, |s|, n);
    if k < n - 1 {
      RepeatAt(n - 1, s, k, j);
    }
  }

  lemma {:induction false} LineLength(p: seq<Option<bv16>>, scale: nat, n: int)
    requires 0 <= n <= |p|
    ensures |Line(p, scale, n)| == n * scale
    decreases n
  {
    if n > 0 {
      LineLength(p, scale, n - 1);
      RepeatLength(scale, [p[n - 1]]);
      Distrib(n - 1, 1, scale);
    }
  }

  /** Screen column `j` of pattern column `col` of a line carries that pattern step. */
  lemma {:induction false} LineAt(p: seq<Option<bv16>>, scale: nat, n: int, col: nat, j: nat)
    requires col < n <= |p| && j < scale
    ensures |Line(p, scale, n)| == n * scale && 0 <= col * scale + j < n * scale
    ensures Line(p, scale, n)[col * scale + j] == p[col]
    decreases n
  {
    var prev := Line(p, scale, n - 1);
    var run := Repeat(scale, [p[n - 1]]);
    assert Line(p, scale, n) == prev + run;
    assert |Line(p, scale, n)| == n * scale by {
      LineLength(p, scale, n);
    }
    assert |prev| == (n - 1) * scale by {
      LineLength(p, scale, n - 1);
    }
    assert 0 <= col * scale + j < n * scale by {
      CellBelow(j, col, scale, n);
    }
    if col < n - 1 {
      LineAt(p, scale, n - 1, col, j);
      assert (prev + run)[col * scale + j] == prev[col * scale + j];
    } else {
      assert 0 <= j < |run| && run[j] == p[n - 1] by {
        RepeatAt(scale, [p[n - 1]], j, 0);
      }
      assert col * scale + j == |prev| + j by {
        assert col == n - 1;
      }
      assert (prev + run)[|prev| + j] == run[j];
    }
  }

  lemma {:induction false} BlockLength(p: seq<seq<Option<bv16>>>, w: nat, scale: nat, n: int)
    requires 0 <= n <= |p| && forall row :: 0 <= row < |p| ==> |p[row]| == w
    ensures |Block(p, scale, n)| == (n * scale) * (w * scale)
    decreases n
  {
    if n > 0 {
      BlockLength(p, w, scale, n - 1);
      LineLength(p[n - 1], scale, w);
      RepeatLength(scale, Line(p[n - 1], scale, w));
      BandsSucc(n, scale, w * scale);
    }
  }

  /** The steps of the last pattern row of a block follow the rows before it, screen line by screen line. */
  lemma {:induction false} LastRowAt(p: seq<seq<Option<bv16>>>, w: nat, scale: nat, row: nat, i: nat, col: nat, j: nat, k: int)
    requires row < |p| && forall r :: 0 <= r < |p| ==> |p[r]| == w
    requires i < scale && col < w && j < scale
    requires k == (row * scale + i) * (w * scale) + (col * scale + j)
    ensures 0 <= k < |Block(p, scale, row + 1)| && Block(p, scale, row + 1)[k] == p[row][col]
  {
    var lw := w * scale;
    var x := col * scale + j;
    var line := Line(p[row], scale, w);
    var run := Repeat(scale, line);
    var before := Block(p, scale, row);
    assert Block(p, scale, row + 1) == before + run;
    assert |before| == (row * scale) * lw by {
      BlockLength(p, w, scale, row);
    }
    assert 0 <= x < lw == |line| && line[x] == p[row][col] by {
      LineAt(p[row], scale, w, col, j);
    }
    var off := i * lw + x;
    assert 0 <= off < |run| && run[off] == p[row][col] by {
      RepeatAt(scale, line, i, x);
    }
    assert k == |before| + off by {
      Distrib(row * scale, i, lw);
    }
    assert (before + run)[|before| + off] == run[off];
  }

  /** Screen line `i` of pattern row `row`, screen column `j` of pattern column `col`, carries that pattern step. */
  lemma {:induction false} BlockAt(p: seq<seq<Option<bv16>>>, w: nat, scale: nat, n: int, row: nat, i: nat, col: nat, j: nat, k: int)
    requires row < n <= |p| && forall r :: 0 <= r < |p| ==> |p[r]| == w
    requires i < scale && col < w && j < scale
    requires k == (row * scale + i) * (w * scale) + (col * scale + j)
    ensures 0 <= k < |Block(p, scale, n)| && Block(p, scale, n)[k] == p[row][col]
  {
    LastRowAt(p, w, scale, row, i, col, j, k);
    BlockPrefixAt(p, scale, row + 1, n, k);
  }

  /** Drawing more pattern rows keeps the steps of the rows already drawn. */
  lemma {:induction false} BlockPrefixAt(p: seq<seq<Option<bv16>>>, scale: int, m: int, n: int, k: int)
    requires 0 <= m <= n <= |p| && 0 <= k < |Block(p, scale, m)|
    ensures k < |Block(p, scale, n)| && Block(p, scale, n)[k] == Block(p, scale, m)[k]
    decreases n
  {
    if m < n {
      BlockPrefixAt(p, scale, m, n - 1, k);
    }
  }

  /** A glyph is 8·scale screen lines of 6·scale pixel steps each. */
  lemma {:induction false} GlyphLength(font: seq<bv8>, c: Code, fg: bv16, bg: bv16, scale: nat, transparent: bool)
    requires |font| == FontSize
    ensures |GlyphSteps(font, c, fg, bg, scale, transparent)| == (FontPixHigh * scale) * (FontPixWide * scale)
  {
    PatternWidth(font, c, fg, bg, transparent);
    BlockLength(Pattern(font, c, fg, bg, transparent), FontPixWide, scale, FontPixHigh);
  }

  /**
   * Screen pixel (col·scale + j, row·scale + i) of the glyph box is painted
   * in the text colour when font bit (col, row) is lit, else in the
   * background colour, or is skipped when the background is transparent.
   */
  lemma {:induction false} GlyphStepAt(font: seq<bv8>, c: Code, fg: bv16, bg: bv16, scale: nat, transparent: bool,
                                       row: nat, i: nat, col: nat, j: nat, k: int)
    requires |font| == FontSize && row < FontPixHigh && i < scale && col < FontPixWide && j < scale
    requires k == (row * scale + i) * (FontPixWide * scale) + (col * scale + j)
    ensures 0 <= k < |GlyphSteps(font, c, fg, bg, scale, transparent)|
    ensures GlyphSteps(font, c, fg, bg, scale, transparent)[k] == StepOf(FontBit(font, c, row, col), fg, bg, transparent)
  {
    var p := Pattern(font, c, fg, bg, transparent);
    PatternWidth(font, c, fg, bg, transparent);
    BlockAt(p, FontPixWide, scale, FontPixHigh, row, i, col, j, k);
    PatternAt(font, c, fg, bg, transparent, row, col);
  }

  // ---------------------------------------------------------------------
  // The driver's state

  /** The size, window and write cursor `rpi/pilcd.c` keeps in its globals. */
  class Display {
    var width: int
    var height: int
    var xStart: int
    var xEnd: int
    var yStart: int
    var yEnd: int
    var xLoc: int
    var yLoc: int

    /** The window and the write cursor as one value. */
    function Cur(): Cursor
      reads this
    {
      Cursor(xStart, xEnd, yStart, yEnd, xLoc, yLoc)
    }

    /** The screen sizes the driver can be in: none yet, or one of the rotations. */
    ghost predicate Valid()
      reads this
    {
      (width, height) == (0, 0) || ScreenSize(0) == Some((width, height)) || ScreenSize(1) == Some((width, height))
    }

    /** The globals as `lcdInit` clears them, before it sets the rotation. */
    constructor ()
      ensures Valid() && width == 0 && height == 0 && Cur() == Cursor(0, 0, 0, 0, 0, 0)
    {
      width, height := 0, 0;
      xStart, xEnd, yStart, yEnd, xLoc, yLoc := 0, 0, 0, 0, 0, 0;
    }

    /**
     * `lcdSetRotation`: a mode above 3 changes nothing and sends nothing;
     * otherwise the screen takes the mode's size, the window becomes the
     * whole screen with the cursor at its top left corner, and `ctrl` is
     * the MADCTL byte sent to the panel.
     */
    method SetRotation(mode: int) returns (ctrl: Option<bv8>)
      requires 0 <= mode < 256 && Valid()
      modifies this
      ensures Valid()
      ensures mode > 3 ==> ctrl == None && width == old(width) && height == old(height) && Cur() == old(Cur())
      ensures mode <= 3 ==> (ScreenSize(mode) == Some((width, height))
        && Cur() == Window(0, 0, width - 1, height - 1)
        && ctrl == Some([0x00, 0x60, 0xC0, 0xA0][mode]))
    {
      if mode > 3 {
        return None;
      }
      var c: bv8;
      if mode == 0 {
        c := 0x00;
        width, height := TftWidth, TftHeight;
      } else if mode == 1 {
        c := 0x60;
        width, height := TftHeight, TftWidth;
      } else if mode == 2 {
        c := 0xC0;
        width, height := TftWidth, TftHeight;
      } else {
        c := 0xA0;
        width, height := TftHeight, TftWidth;
      }
      xStart, xEnd, yStart, yEnd := 0, width - 1, 0, height - 1;
      xLoc, yLoc := xStart, yStart;
      ctrl := Some(c);
    }

    /** `lcdSetAddrWindow`: the window given, the cursor at its top left corner. */
    method SetAddrWindow(x0: int, y0: int, x1: int, y1: int)
      requires 0 <= x0 < 256 && 0 <= y0 < 256 && 0 <= x1 < 256 && 0 <= y1 < 256
      modifies this
      ensures Cur() == Window(x0, y0, x1, y1)
      ensures width == old(width) && height == old(height)
    {
      xStart, xEnd, yStart, yEnd := x0, x1, y0, y1;
      xLoc, yLoc := xStart, yStart;
    }

    /** `update_row_column_addr`: the cursor makes one step through the window. */
    method UpdateRowColumnAddr()
      modifies this
      ensures Cur() == Advance(old(Cur()), width, height)
      ensures width == old(width) && height == old(height)
    {
      xLoc := xLoc + 1;
      if xLoc > xEnd || xLoc == width {
        xLoc := xStart;
        yLoc := yLoc + 1;
        if yLoc > yEnd || yLoc == height {
          yLoc := yEnd;
        }
      }
    }

    /** `lcdPushColor` into a frame buffer: the pixel under the cursor gets `color`, then the cursor steps. */
    method PushColor(frame: array<bv8>, color: bv16)
      requires CursorOnScreen(Cur(), width, height) && frame.Length >= 2 * Cells(width, height)
      modifies this, frame
      ensures width == old(width) && height == old(height)
      ensures frame[..] == Write(old(frame[..]), old(Cur()), width, height, color)
      ensures Cur() == Advance(old(Cur()), width, height)
    {
      var i := CellIndex(Cur(), width, height);
      frame[i] := (color >> 8) as bv8;
      frame[i + 1] := (color & 0xFF) as bv8;
      UpdateRowColumnAddr();
    }

    /**
     * `lcdFrameBufferColor`: every pixel of the screen gets `color`, high
     * byte at the even offset, low byte at the odd one; bytes past the
     * screen are left alone.
     */
    method FrameBufferColor(frame: array<bv8>, color: bv16)
      requires Valid() && frame.Length >= 2 * width * height
      modifies frame
      ensures forall k :: 0 <= k < 2 * width * height ==> frame[k] == if k % 2 == 0 then Hi(color) else Lo(color)
      ensures forall k :: 2 * width * height <= k < frame.Length ==> frame[k] == old(frame[k])
    {
      var size := (width * height * 2) % 0x1_0000;
      assert size == 2 * width * height;
      var i := 0;
      while i < size
        invariant 0 <= i <= size && i % 2 == 0
        invariant forall k :: 0 <= k < i ==> frame[k] == if k % 2 == 0 then Hi(color) else Lo(color)
        invariant forall k :: i <= k < frame.Length ==> frame[k] == old(frame[k])
      {
        frame[i] := (color >> 8) as bv8;
        frame[i + 1] := (color & 0xFF) as bv8;
        i := i + 2;
      }
    }

    /**
     * `lcdDrawChar` into a frame buffer. A glyph box that does not fit on
     * the screen changes nothing. Otherwise the window becomes the box (its
     * corners cut to bytes, as `lcdSetAddrWindow` takes them) and the
     * buffer and cursor are what the glyph's pixel steps make of them.
     */
    method DrawChar(frame: array<bv8>, x: int, y: int, c: Code, fg: bv16, bg: bv16, scale: int, transparent: bool, font: seq<bv8>)
      requires Valid() && 0 <= x < 0x1_0000 && 0 <= y < 0x1_0000 && |font| == FontSize
      requires frame.Length >= 2 * Cells(width, height)
      modifies this, frame
      ensures width == old(width) && height == old(height)
      ensures x + FontPixWide * scale - 1 >= width || y + FontPixHigh * scale - 1 >= height ==>
        frame[..] == old(frame[..]) && Cur() == old(Cur())
      ensures x + FontPixWide * scale - 1 < width && y + FontPixHigh * scale - 1 < height && scale <= 0 ==>
        frame[..] == old(frame[..])
        && Cur() == Window(x % 256, y % 256, (x + FontPixWide * scale - 1) % 256, (y + FontPixHigh * scale - 1) % 256)
      ensures x + FontPixWide * scale - 1 < width && y + FontPixHigh * scale - 1 < height && scale > 0 ==>
        var box := Window(x, y, x + FontPixWide * scale - 1, y + FontPixHigh * scale - 1);
        InWindow(box) && OnScreen(box, width, height)
        && (frame[..], Cur()) == Paint(old(frame[..]), box, width, height, GlyphSteps(font, c, fg, bg, scale, transparent))
    {
      if x + FontPixWide * scale - 1 >= width || y + FontPixHigh * scale - 1 >= height {
        return;
      }
      assert width <= 256 && height <= 256;
      assert scale > 0 ==> x % 256 == x && y % 256 == y;
      assert scale > 0 ==> (x + FontPixWide * scale - 1) % 256 == x + FontPixWide * scale - 1;
      assert scale > 0 ==> (y + FontPixHigh * scale - 1) % 256 == y + FontPixHigh * scale - 1;
      SetAddrWindow(x % 256, y % 256, (x + FontPixWide * scale - 1) % 256, (y + FontPixHigh * scale - 1) % 256);
      if scale <= 0 {
        return;
      }
      ghost var box := Window(x, y, x + FontPixWide * scale - 1, y + FontPixHigh * scale - 1);
      assert Cur() == box;
      ghost var b0 := old(frame[..]);
      assert Canvas(b0, box, width, height);
      GlyphRows(frame, font, c, fg, bg, scale, transparent, b0, box, width, height);
    }

    /** The outer loop of `lcdDrawChar`: the eight font rows, top to bottom, with `line` the row's bit mask. */
    method GlyphRows(frame: array<bv8>, font: seq<bv8>, c: Code, fg: bv16, bg: bv16, scale: int, transparent: bool,
                     ghost b0: seq<bv8>, ghost c0: Cursor, ghost w: int, ghost h: int)
      requires |font| == FontSize && scale > 0
      requires |b0| == frame.Length && Painted(frame, b0, c0, w, h, [])
      modifies this, frame
      ensures Painted(frame, b0, c0, w, h, GlyphSteps(font, c, fg, bg, scale, transparent))
    {
      ghost var p := Pattern(font, c, fg, bg, transparent);
      ghost var sofar: seq<Option<bv16>> := [];
      var line: bv8 := 0x01;
      var row := 0;
      while row < FontPixHigh
        invariant 0 <= row <= FontPixHigh && (row < FontPixHigh ==> line == RowMask(row))
        invariant sofar == Block(p, scale, row)
        invariant Painted(frame, b0, c0, w, h, sofar)
      {
        ghost var pr := p[row];
        PatternRow(font, c, fg, bg, transparent, row);
        GlyphRow(frame, font, c, fg, bg, scale, transparent, line, b0, c0, w, h, sofar, pr);
        sofar := sofar + Repeat(scale, Line(pr, scale, |pr|));
        line := NextLine(row, line);
        row := row + 1;
      }
    }

    /**
     * The frame buffer and cursor are what the pixel steps `done` make of
     * the buffer `b0` and the cursor `c0`, on a screen of `w` by `h`.
     */
    ghost predicate Painted(frame: array<bv8>, b0: seq<bv8>, c0: Cursor, w: int, h: int, done: seq<Option<bv16>>)
      reads this, frame
    {
      Canvas(b0, c0, w, h) && width == w && height == h && (frame[..], Cur()) == Paint(b0, c0, w, h, done)
    }

    /** The second loop of `lcdDrawChar`: one font row, drawn as `scale` screen lines. */
    method GlyphRow(frame: array<bv8>, font: seq<bv8>, c: Code, fg: bv16, bg: bv16, scale: int, transparent: bool, line: bv8,
                    ghost b0: seq<bv8>, ghost c0: Cursor, ghost w: int, ghost h: int, ghost done: seq<Option<bv16>>, ghost pr: seq<Option<bv16>>)
      requires |font| == FontSize && scale > 0 && pr == RowPattern(font, c, fg, bg, transparent, line)
      requires |b0| == frame.Length && Painted(frame, b0, c0, w, h, done)
      modifies this, frame
      ensures Painted(frame, b0, c0, w, h, done + Repeat(scale, Line(pr, scale, |pr|)))
    {
      ghost var l := Line(pr, scale, |pr|);
      ghost var sofar := done;
      var i := 0;
      assert done + Repeat(i, l) == done;
      while i < scale
        invariant 0 <= i <= scale
        invariant sofar == done + Repeat(i, l)
        invariant Painted(frame, b0, c0, w, h, sofar)
      {
        GlyphLine(frame, font, c, fg, bg, scale, transparent, line, b0, c0, w, h, sofar, pr);
        AppendRow(done, l, i);
        sofar := sofar + l;
        i := i + 1;
      }
    }

    /**
     * The third loop of `lcdDrawChar`: one screen line of a glyph, six
     * font columns of `scale` pixel steps each.
     */
    method GlyphLine(frame: array<bv8>, font: seq<bv8>, c: Code, fg: bv16, bg: bv16, scale: int, transparent: bool, line: bv8,
                     ghost b0: seq<bv8>, ghost c0: Cursor, ghost w: int, ghost h: int, ghost done: seq<Option<bv16>>, ghost pr: seq<Option<bv16>>)
      requires |font| == FontSize && scale > 0 && pr == RowPattern(font, c, fg, bg, transparent, line)
      requires |b0| == frame.Length && Painted(frame, b0, c0, w, h, done)
      modifies this, frame
      ensures Painted(frame, b0, c0, w, h, done + Line(pr, scale, |pr|))
    {
      ghost var sofar := done;
      var col := 0;
      assert done + Line(pr, scale, col) == done;
      while col < FontPixWide
        invariant 0 <= col <= FontPixWide
        invariant sofar == done + Line(pr, scale, col)
        invariant Painted(frame, b0, c0, w, h, sofar)
      {
        var on := Lit(font[FontIndex(c, col)], line);
        GlyphRun(frame, on, fg, bg, scale, transparent, b0, c0, w, h, sofar, pr[col]);
        AppendLine(done, pr, scale, col);
        sofar := sofar + Repeat(scale, [pr[col]]);
        col := col + 1;
      }
    }

    /**
     * The innermost loop of `lcdDrawChar`: `scale` steps of one font pixel,
     * continuing the run `done` already painted.
     */
    method GlyphRun(frame: array<bv8>, on: bool, fg: bv16, bg: bv16, scale: int, transparent: bool,
                    ghost b0: seq<bv8>, ghost c0: Cursor, ghost w: int, ghost h: int, ghost done: seq<Option<bv16>>, ghost step: Option<bv16>)
      requires step == StepOf(on, fg, bg, transparent) && scale > 0
      requires |b0| == frame.Length && Painted(frame, b0, c0, w, h, done)
      modifies this, frame
      ensures Painted(frame, b0, c0, w, h, done + Repeat(scale, [step]))
    {
      ghost var sofar := done;
      var j := 0;
      assert done + Repeat(j, [step]) == done;
      while j < scale
        invariant 0 <= j <= scale
        invariant sofar == done + Repeat(j, [step])
        invariant Painted(frame, b0, c0, w, h, sofar)
      {
        PaintPixel(frame, on, fg, bg, transparent, b0, c0, w, h, sofar, step);
        AppendRepeat(done, j, step);
        sofar := sofar + [step];
        j := j + 1;
      }
    }

    /** One pixel step appended to the steps already painted. */
    method PaintPixel(frame: array<bv8>, on: bool, fg: bv16, bg: bv16, transparent: bool,
                      ghost b0: seq<bv8>, ghost c0: Cursor, ghost w: int, ghost h: int, ghost done: seq<Option<bv16>>, ghost step: Option<bv16>)
      requires step == StepOf(on, fg, bg, transparent) && Painted(frame, b0, c0, w, h, done)
      modifies this, frame
      ensures Painted(frame, b0, c0, w, h, done + [step])
    {
      PaintStep(b0, c0, w, h, done, step);
      GlyphPixel(frame, on, fg, bg, transparent, step);
    }

    /**
     * The body of the innermost loop of `lcdDrawChar`: a push of the text
     * colour when the font pixel is lit, else of the background, or, when
     * transparent, only a cursor step.
     */
    method GlyphPixel(frame: array<bv8>, on: bool, fg: bv16, bg: bv16, transparent: bool, ghost step: Option<bv16>)
      requires step == StepOf(on, fg, bg, transparent)
      requires CursorOnScreen(Cur(), width, height) && frame.Length >= 2 * Cells(width, height)
      modifies this, frame
      ensures width == old(width) && height == old(height)
      ensures frame[..] == if step.Some? then Write(old(frame[..]), old(Cur()), width, height, step.value) else old(frame[..])
      ensures Cur() == Advance(old(Cur()), width, height)
    {
      if on {
        PushColor(frame, fg);
      } else if !transparent {
        PushColor(frame, bg);
      } else {
        UpdateRowColumnAddr();
      }
    }
  }

  /** One more step of a run: `Paint` over the longer run is that step applied to the shorter one's result. */
  lemma {:induction false} PaintStep(b: seq<bv8>, c: Cursor, width: int, height: int, done: seq<Option<bv16>>, s: Option<bv16>)
    requires Canvas(b, c, width, height)
    ensures var prev := Paint(b, c, width, height, done);
      Paint(b, c, width, height, done + [s]) == (if s.Some? then Write(prev.0, prev.1, width, height, s.value) else prev.0, Advance(prev.1, width, height))
  {
    assert (done + [s])[..|done + [s]| - 1] == done;
  }

  lemma {:induction false} AppendRepeat(prefix: seq<Option<bv16>>, j: int, s: Option<bv16>)
    requires j >= 0
    ensures prefix + Repeat(j, [s]) + [s] == prefix + Repeat(j + 1, [s])
  {
  }

  lemma {:induction false} AppendLine(prefix: seq<Option<bv16>>, p: seq<Option<bv16>>, scale: int, col: int)
    requires 0 <= col < |p|
    ensures prefix + Line(p, scale, col) + Repeat(scale, [p[col]]) == prefix + Line(p, scale, col + 1)
  {
  }

  lemma {:induction false} AppendRow(prefix: seq<Option<bv16>>, l: seq<Option<bv16>>, i: int)
    requires i >= 0
    ensures prefix + Repeat(i, l) + l == prefix + Repeat(i + 1, l)
  {
  }
}
