/**
 * The VT100 text terminal drawn on the ST7735 display (rpi/vt100lcd.c).
 *
 * Characters are fed one at a time. An ESC starts an escape sequence, a
 * following '[' confirms it, then decimal digits and ';' accumulate in a
 * 32-character buffer until a final letter executes a command with up to
 * two numeric parameters. Any other character moves the text cursor (CR,
 * LF, BS) or is drawn as a glyph at the cursor. Glyph draws and screen
 * clears are returned as events rather than performed. The cursor and the
 * screen's row and column counts are `uint8_t` in the driver, so their
 * increments and decrements wrap modulo 256.
 */
module Vt100 {
  import opened Wrappers
  import opened CText
  import PiLcd
  import opened Streams

  const CodeBuff: int := 32
  const LineLen: int := 80
  const AsciiEsc: char := 27 as char
  const AsciiCr: char := 13 as char
  const AsciiLf: char := 10 as char
  const AsciiBs: char := 8 as char

  /** Assignment to a `uint8_t`. */
  function U8(x: int): (r: int)
    ensures 0 <= r < 256
    ensures 0 <= x < 256 ==> r == x
  {
    x % 256
  }

  /** C's `/` on `int`: the quotient truncated toward zero. */
  function TruncDiv(a: int, b: int): (q: int)
    requires b != 0
    ensures a >= 0 && b > 0 ==> q == a / b
  {
    var m := (if a < 0 then -a else a) / (if b < 0 then -b else b);
    if (a < 0) == (b < 0) then m else -m
  }

  /** `vt100_lcd_putc`'s escape states, and `parseEscapeSeq`'s two states, which share their values. */
  const EscNone: int := 0
  const EscFound: int := 1
  const EscBracket: int := 2
  const StateNone: int := EscNone
  const StateDigit: int := EscBracket

  /** What the terminal asks of the display driver. */
  datatype Event =
    | Glyph(x: int, y: int, c: char, fg: bv16, bg: bv16, scale: int, transparent: int)
    | Clear(color: bv16)

  /** What is on the screen side: the cursor, the saved cursor, the colours, the text grid, line wrapping and the font scale. */
  datatype Screen = Screen(col: int, row: int, savedCol: int, savedRow: int,
                           fg: bv16, bg: bv16, maxRows: int, maxCols: int,
                           lineWrap: bool, scale: int)

  /** The whole terminal: the screen side, the escape state, the parser state and the collected text. */
  datatype Term = Term(screen: Screen, escape: int, parseState: int, code: string)

  /** The characters an escape sequence collects. */
  predicate ParamChar(c: char)
  {
    IsDigit(c) || c == ';'
  }

  predicate ParamText(s: string)
  {
    forall k :: 0 <= k < |s| ==> ParamChar(s[k])
  }

  // ---------------------------------------------------------------------
  // Escape parameters

  /** `strlen`: the characters before the first NUL (all of them when there is none). */
  function Strlen(s: string): (n: nat)
    ensures n <= |s| && (n < |s| ==> s[n] == '\0')
    ensures forall k :: 0 <= k < n ==> s[k] != '\0'
  {
    if s == [] || s[0] == '\0' then 0 else 1 + Strlen(s[1..])
  }

  /** The position of the first ';', or the length when there is none. */
  function FirstSemi(s: string): (k: nat)
    ensures k <= |s| && (k < |s| ==> s[k] == ';')
    ensures forall j :: 0 <= j < k ==> s[j] != ';'
  {
    if s == [] || s[0] == ';' then 0 else 1 + FirstSemi(s[1..])
  }

  /** The number a run of digits spells, or -1 for an empty run. */
  function Segment(s: string): (n: int)
    ensures n >= -1 && (n == -1 <==> s == [])
  {
    if s == [] then -1 else NumberValue(s, 10)
  }

  /**
   * The parameters of an escape sequence: the number before the first ';'
   * and the number between the first and the second ';', each -1 when its
   * text is empty or absent.
   */
  function Params(s: string): (r: (int, int))
    ensures r.0 >= -1 && r.1 >= -1
    ensures s == [] ==> r == (-1, -1)
    ensures r.1 != -1 ==> FirstSemi(s) < |s|
  {
    var k := FirstSemi(s);
    var rest := if k < |s| then s[k + 1..] else [];
    (Segment(s[..k]), if k < |s| then Segment(rest[..FirstSemi(rest)]) else -1)
  }

  /** A digit in front of a number is worth its value times ten to the number's length. */
  lemma {:induction false} NumberValuePrepend(d: char, s: string)
    ensures NumberValue([d] + s, 10) == DigitValue(d) * Pow10(|s|) + NumberValue(s, 10)
    decreases |s|
  {
    if s != [] {
      var s' := s[..|s| - 1];
      assert ([d] + s)[..|s|] == [d] + s';
      NumberValuePrepend(d, s');
      assert DigitValue(d) * Pow10(|s|) == DigitValue(d) * Pow10(|s'|) * 10;
    }
  }

  /** How one more character in front changes the parameters: the step of the backward scan. */
  lemma {:induction false} ParamsPrepend(c: char, t: string)
    requires ParamChar(c)
    ensures c == ';' ==> FirstSemi([c] + t) == 0 && Params([c] + t) == (-1, Params(t).0)
    ensures c != ';' ==> FirstSemi([c] + t) == FirstSemi(t) + 1
    ensures c != ';' ==> Params([c] + t) == ((if Params(t).0 == -1 then 0 else Params(t).0) + DigitValue(c) * Pow10(FirstSemi(t)), Params(t).1)
  {
    var s := [c] + t;
    assert s[1..] == t;
    if c != ';' {
      var k := FirstSemi(t);
      assert s[..k + 1] == [c] + t[..k];
      NumberValuePrepend(c, t[..k]);
      if k < |t| {
        assert s[k + 2..] == t[k + 1..];
      }
    } else {
      assert s[..0] == [];
    }
  }

  /**
   * `getEscapeParam`: scans the collected text from its end, building the
   * current number digit by digit and handing it to `n2` at every ';'.
   */
  method GetEscapeParam(s: array<char>) returns (n1: int, n2: int)
    requires ParamText(s[..Strlen(s[..])])
    ensures (n1, n2) == Params(s[..Strlen(s[..])])
  {
    n1, n2 := -1, -1;
    var len := Strlen(s[..]);
    if len == 0 {
      return;
    }
    var temp, p := -1, 1;
    var i := len;
    while i > 0
      invariant 0 <= i <= len
      invariant (temp, n2) == Params(s[i..len]) && p == Pow10(FirstSemi(s[i..len]))
    {
      i := i - 1;
      assert s[i..len] == [s[i]] + s[i + 1..len];
      assert ParamChar(s[..len][i]);
      ParamsPrepend(s[i], s[i + 1..len]);
      if s[i] == ';' {
        n2 := temp;
        temp := -1;
        p := 1;
        continue;
      }
      if temp == -1 {
        temp := 0;
      }
      temp := temp + (s[i] as int - '0' as int) * p;
      p := p * 10;
    }
    assert s[0..len] == s[..Strlen(s[..])];
    n1 := temp;
  }

  /** Two runs of digits joined by ';', then nothing or a further ';', are the two parameters. */
  lemma {:induction false} ParamsJoin(d: string, e: string, rest: string)
    requires AllDigits(d, 10) && AllDigits(e, 10)
    requires rest == [] || rest[0] == ';'
    ensures Params(d + [';'] + e + rest) == (Segment(d), Segment(e))
  {
    assert d + [';'] + e + rest == d + [';'] + (e + rest);
    SemiAfterDigits(d, e + rest);
    FirstSemiAfterDigits(e, rest);
    assert (e + rest)[..|e|] == e;
  }

  /** Digits then ';': the first ';' splits the text after the digits. */
  lemma {:induction false} SemiAfterDigits(d: string, x: string)
    requires AllDigits(d, 10)
    ensures FirstSemi(d + [';'] + x) == |d|
    ensures (d + [';'] + x)[..|d|] == d && (d + [';'] + x)[|d| + 1..] == x
  {
    assert d + [';'] + x == d + ([';'] + x);
    FirstSemiAfterDigits(d, [';'] + x);
  }

  /** A decimal number followed by ';', a second number and nothing or a further ';' gives both numbers back. */
  lemma {:induction false} ParamsOfNumbers(a: nat, b: nat, rest: string)
    requires rest == [] || rest[0] == ';'
    ensures Params(DecimalText(a) + [';'] + DecimalText(b) + rest) == (a, b)
  {
    ParamsJoin(DecimalText(a), DecimalText(b), rest);
    DecimalTextValue(a);
    DecimalTextValue(b);
  }

  /** A lone decimal number is the first parameter, and the second is absent. */
  lemma {:induction false} ParamsOfNumber(a: nat)
    ensures Params(DecimalText(a)) == (a, -1)
  {
    var d := DecimalText(a);
    FirstSemiAfterDigits(d, []);
    assert d + [] == d;
    assert d[..|d|] == d;
    DecimalTextValue(a);
  }

  lemma {:induction false} FirstSemiAfterDigits(d: string, x: string)
    requires AllDigits(d, 10)
    ensures FirstSemi(d + x) == |d| + FirstSemi(x)
    decreases |d|
  {
    if d != [] {
      assert (d + x)[1..] == d[1..] + x;
      FirstSemiAfterDigits(d[1..], x);
    } else {
      assert d + x == x;
    }
  }

  /** The numbers below 1000 take at most three digits. */
  lemma {:induction false} DecimalTextShort(n: nat)
    requires n < 1000
    ensures |DecimalText(n)| <= 3
  {
    if n >= 10 {
      if n / 10 >= 10 {
        assert |DecimalText(n / 10 / 10)| == 1;
      }
    }
  }

  // ---------------------------------------------------------------------
  // Colours

  /**
   * `converToColor`: the eight colours of the VT100 attribute codes. Bit 0
   * of the code is red, bit 1 green and bit 2 blue, each at full intensity.
   */
  function ConvertToColor(code: int): (color: bv16)
    requires 0 <= code < 8
    ensures color == PiLcd.Color565(Full(code, 1), Full(code, 2), Full(code, 4))
  {
    if code == 0 then PiLcd.Black
    else if code == 1 then PiLcd.Red
    else if code == 2 then PiLcd.Green
    else if code == 3 then PiLcd.Yellow
    else if code == 4 then PiLcd.Blue
    else if code == 5 then PiLcd.Magenta
    else if code == 6 then PiLcd.Cyan
    else PiLcd.White
  }

  /** Full intensity when the code has the bit, none otherwise. */
  function Full(code: int, bit: int): bv8
    requires bit > 0
  {
    if (code / bit) % 2 == 1 then 0xFF else 0
  }

  /** The eight colours are different from each other. */
  lemma {:induction false} ColorsDistinct(i: int, j: int)
    requires 0 <= i < 8 && 0 <= j < 8 && i != j
    ensures ConvertToColor(i) != ConvertToColor(j)
  {
  }

  // ---------------------------------------------------------------------
  // The effect of one character

  /** A line feed: one row down, stepped back only when it lands exactly on `maxRows`. */
  function LineFeed(row: int, maxRows: int): int
  {
    var r := U8(row + 1);
    if r == maxRows then U8(r - 1) else r
  }

  /** A character that is neither ESC nor CR, LF or BS: one that is drawn. */
  predicate Printable(c: char)
  {
    c != AsciiEsc && c != AsciiCr && c != AsciiLf && c != AsciiBs
  }

  /**
   * The text grid `vt100_lcd_init` derives for a screen of `width` by
   * `height` pixels: rows, then columns, each a font cell scaled by `scale`.
   */
  function Grid(width: int, height: int, scale: int): (g: (int, int))
    requires scale != 0
    ensures 0 <= g.0 < 256 && 0 <= g.1 < 256
  {
    (U8(TruncDiv(height / PiLcd.FontPixHigh, scale)), U8(TruncDiv(width / PiLcd.FontPixWide, scale)))
  }

  /** A character outside an escape sequence. */
  function Plain(t: Screen, transparent: int, c: char): (Screen, seq<Event>)
  {
    if c == AsciiCr then (t.(col := 0), [])
    else if c == AsciiLf then (t.(row := LineFeed(t.row, t.maxRows)), [])
    else if c == AsciiBs then (t.(col := if t.col > 0 then t.col - 1 else t.col), [])
    else
      var drawn := [Glyph(t.col * PiLcd.FontPixWide, t.row * PiLcd.FontPixHigh, c, t.fg, t.bg, t.scale, transparent)];
      var col := U8(t.col + 1);
      if col != t.maxCols then (t.(col := col), drawn)
      else if t.lineWrap then (t.(col := 0, row := LineFeed(t.row, t.maxRows)), drawn)
      else (t.(col := U8(col - 1)), drawn)
  }

  /** A missing count means one. */
  function Count(n: int): int
  {
    if n == -1 then 1 else n
  }

  /** H and f: each coordinate taken only when on the grid; no parameters at all means home. */
  function MoveTo(t: Screen, n1: int, n2: int): Screen
  {
    if n1 == -1 && n2 == -1 then t.(row := 0, col := 0)
    else t.(row := if 0 <= n1 < t.maxRows then n1 else t.row,
            col := if 0 <= n2 < t.maxCols then n2 else t.col)
  }

  /** One attribute code: 30..37 a foreground, 40..47 a background, anything else nothing. */
  function SetColor(t: Screen, n: int): Screen
  {
    if n < 30 || n > 47 then t
    else if n <= 37 then t.(fg := ConvertToColor(n - 30))
    else if n >= 40 then t.(bg := ConvertToColor(n - 40))
    else t
  }

  /** Space glyphs on the cursor row, for the columns from `lo` up to `hi`. */
  function Erase(t: Screen, transparent: int, lo: int, hi: int): (r: seq<Event>)
    decreases hi - lo
  {
    if hi <= lo then []
    else Erase(t, transparent, lo, hi - 1) + [Glyph((hi - 1) * PiLcd.FontPixWide, t.row * PiLcd.FontPixHigh, ' ', t.fg, t.bg, t.scale, transparent)]
  }

  /** The final letters of the commands that only change the cursor or line wrapping. */
  predicate IsMotion(c: char)
  {
    c in "hlfHABCDsu"
  }

  /** h and l: line wrapping on or off, for the parameter 7 only. */
  function Wrapping(t: Screen, c: char, n1: int): Screen
  {
    if n1 == 7 then t.(lineWrap := c == 'h') else t
  }

  /** A and B: up or down by the count, stopping at row 0 or at `maxRows`. */
  function Vertical(t: Screen, c: char, n1: int): Screen
  {
    if c == 'A' then t.(row := if Count(n1) > t.row then 0 else t.row - Count(n1))
    else t.(row := if Count(n1) + t.row >= t.maxRows then t.maxRows else t.row + Count(n1))
  }

  /** D and C: left or right by the count, stopping at column 0 or at `maxCols`. */
  function Horizontal(t: Screen, c: char, n1: int): Screen
  {
    if c == 'D' then t.(col := if Count(n1) > t.col then 0 else t.col - Count(n1))
    else t.(col := if Count(n1) + t.col >= t.maxCols then t.maxCols else t.col + Count(n1))
  }

  /** s and u: save the cursor, or restore the saved one. */
  function SaveRestore(t: Screen, c: char): Screen
  {
    if c == 's' then t.(savedCol := t.col, savedRow := t.row)
    else t.(col := t.savedCol, row := t.savedRow)
  }

  /** The cursor and line-wrap commands. */
  function Motion(t: Screen, c: char, n1: int, n2: int): Screen
    requires IsMotion(c)
  {
    if c == 'h' || c == 'l' then Wrapping(t, c, n1)
    else if c == 'f' || c == 'H' then MoveTo(t, n1, n2)
    else if c == 'A' || c == 'B' then Vertical(t, c, n1)
    else if c == 'C' || c == 'D' then Horizontal(t, c, n1)
    else SaveRestore(t, c)
  }

  /** The command a final letter names, with the sequence's two parameters; unknown letters do nothing. */
  function Command(t: Screen, transparent: int, c: char, n1: int, n2: int): (Screen, seq<Event>)
  {
    if IsMotion(c) then (Motion(t, c, n1, n2), [])
    else if c == 'K' then
      (t, if n1 == 1 then Erase(t, transparent, 0, t.col)
          else if n1 == 2 then Erase(t, transparent, 0, t.maxCols)
          else Erase(t, transparent, t.col, t.maxCols))
    else if c == 'J' then (if n1 == 2 then (t.(col := 0, row := 0), [Clear(t.bg)]) else (t, []))
    else if c == 'm' then (if n1 < 30 || n1 > 47 then t else SetColor(SetColor(t, n1), n2), [])
    else (t, [])
  }

  /**
   * A character inside a confirmed sequence: the first one clears the
   * collected text; digits and ';' are collected while there is room; any
   * other character ends the sequence and runs its command.
   */
  function Parse(t: Term, transparent: int, c: char): (Term, seq<Event>)
  {
    var code := if t.parseState == StateNone then [] else t.code;
    if ParamChar(c) then (t.(parseState := StateDigit, code := if |code| < CodeBuff then code + [c] else code), [])
    else
      var r := Command(t.screen, transparent, c, Params(code).0, Params(code).1);
      (Term(r.0, t.escape, StateNone, code), r.1)
  }

  /** `vt100_lcd_putc`: one character through the escape state machine. */
  function Step(t: Term, transparent: int, c: char): (Term, seq<Event>)
  {
    if t.escape == EscBracket then
      var r := Parse(t, transparent, c);
      (r.0.(escape := r.0.parseState), r.1)
    else if t.escape == EscFound then (t.(escape := if c == '[' then EscBracket else EscNone), [])
    else if c == AsciiEsc then (t.(escape := EscFound), [])
    else
      var r := Plain(t.screen, transparent, c);
      (t.(screen := r.0), r.1)
  }

  /** A string fed character by character, with the events in order. */
  function Feed(t: Term, transparent: int, s: string): (Term, seq<Event>)
  {
    Run((u: Term, c: char) => Step(u, transparent, c), t, s)
  }

  /** Feeding one more character is one more step after the rest. */
  lemma {:induction false} FeedSnoc(t: Term, transparent: int, s: string, c: char)
    ensures Feed(t, transparent, s + [c]).0 == Step(Feed(t, transparent, s).0, transparent, c).0
    ensures Feed(t, transparent, s + [c]).1 == Feed(t, transparent, s).1 + Step(Feed(t, transparent, s).0, transparent, c).1
  {
    RunSnoc((u: Term, c: char) => Step(u, transparent, c), t, s, c);
  }

  /** What `vt100_lcd_printf` feeds: the formatted text cut to the 79 characters its buffer holds, up to any NUL. */
  function Shown(formatted: string): (s: string)
    ensures |s| < LineLen
    ensures |s| <= |formatted| && forall k :: 0 <= k < |s| ==> s[k] == formatted[k] && s[k] != '\0'
  {
    var str := formatted[..Min(|formatted|, LineLen - 1)];
    str[..Strlen(str)]
  }

  // ---------------------------------------------------------------------
  // The terminal's globals

  /** The `uint8_t` globals hold bytes. */
  predicate Fits(t: Screen)
  {
    0 <= t.col < 256 && 0 <= t.row < 256 && 0 <= t.savedCol < 256 && 0 <= t.savedRow < 256
    && 0 <= t.maxRows < 256 && 0 <= t.maxCols < 256
  }

  lemma {:induction false} PlainFits(t: Screen, transparent: int, c: char)
    requires Fits(t)
    ensures Fits(Plain(t, transparent, c).0)
  {
  }

  lemma {:induction false} CommandFits(t: Screen, transparent: int, c: char, n1: int, n2: int)
    requires Fits(t) && n1 >= -1
    ensures Fits(Command(t, transparent, c, n1, n2).0)
  {
    if IsMotion(c) {
      MotionFits(t, c, n1, n2);
    } else if c == 'J' && n1 == 2 {
      assert Command(t, transparent, c, n1, n2).0 == t.(col := 0, row := 0);
    } else if c == 'm' && 30 <= n1 <= 47 {
      assert Command(t, transparent, c, n1, n2).0 == SetColor(SetColor(t, n1), n2);
    } else {
      assert Command(t, transparent, c, n1, n2).0 == t;
    }
  }

  lemma {:induction false} MotionFits(t: Screen, c: char, n1: int, n2: int)
    requires Fits(t) && n1 >= -1 && IsMotion(c)
    ensures Fits(Motion(t, c, n1, n2))
  {
    var m := Motion(t, c, n1, n2);
    if c == 'h' || c == 'l' {
      assert m == Wrapping(t, c, n1);
    } else if c == 'f' || c == 'H' {
      assert m == MoveTo(t, n1, n2);
    } else if c == 'A' || c == 'B' {
      assert m == Vertical(t, c, n1);
      assert 0 <= m.row < 256;
    } else if c == 'C' || c == 'D' {
      assert m == Horizontal(t, c, n1);
      assert 0 <= m.col < 256;
    } else {
      assert m == SaveRestore(t, c);
    }
  }

  class Terminal {
    var cursCol: int
    var cursRow: int
    var saveCursCol: int
    var saveCursRow: int
    var backgroundColor: bv16
    var foregroundColor: bv16
    var maxRows: int
    var maxCols: int
    var lineWrap: bool
    var fontScale: int
    /** `vt100_lcd_putc`'s static escape state. */
    var escape: int
    /** `parseEscapeSeq`'s static state: `StateDigit` once a sequence has collected a digit or ';'. */
    var parseState: int
    /** `parseEscapeSeq`'s static text buffer and its fill count. */
    const codeString: array<char>
    var codeLen: int
    /** The collected text, `codeString[..codeLen]`. */
    ghost var code: string

    ghost predicate Valid()
      reads this, codeString
    {
      Buffer() && Fits(Scr())
    }

    /** The buffer holds the `codeLen` collected characters, then NULs. */
    ghost predicate Buffer()
      reads this`codeLen, this`code, codeString
    {
      codeString.Length == CodeBuff && 0 <= codeLen <= CodeBuff && |code| == codeLen
      && (forall k :: 0 <= k < codeLen ==> codeString[k] == code[k] && ParamChar(code[k]))
      && (forall k :: codeLen <= k < CodeBuff ==> codeString[k] == '\0')
    }

    /** The screen-side globals as one value. */
    ghost function Scr(): Screen
      reads this`cursCol, this`cursRow, this`saveCursCol, this`saveCursRow, this`foregroundColor,
        this`backgroundColor, this`maxRows, this`maxCols, this`lineWrap, this`fontScale
    {
      Screen(cursCol, cursRow, saveCursCol, saveCursRow, foregroundColor, backgroundColor,
             maxRows, maxCols, lineWrap, fontScale)
    }

    ghost function State(): Term
      reads this
    {
      Term(Scr(), escape, parseState, code)
    }

    /** The globals and statics as the program starts: all zero, no escape sequence under way. */
    constructor ()
      ensures Valid()
      ensures State() == Term(Screen(0, 0, 0, 0, 0, 0, 0, 0, false, 0), EscNone, StateNone, [])
    {
      cursCol, cursRow, saveCursCol, saveCursRow := 0, 0, 0, 0;
      backgroundColor, foregroundColor := 0, 0;
      maxRows, maxCols, lineWrap, fontScale := 0, 0, false, 0;
      escape, parseState := EscNone, StateNone;
      codeString := new char[CodeBuff](_ => '\0');
      codeLen := 0;
      code := [];
    }

    /**
     * `vt100_lcd_init`: sets the display rotation, homes both cursors,
     * takes the colours, turns line wrapping off and sizes the text grid
     * from the screen size, the font size and the scale. The escape state
     * is left as it was.
     */
    method Init(lcd: PiLcd.Display, rotation: int, scale: int, bg: bv16, fg: bv16)
      requires Valid() && lcd.Valid() && scale != 0
      modifies this, lcd
      ensures Valid() && lcd.Valid()
      ensures U8(rotation) <= 3 ==> PiLcd.ScreenSize(U8(rotation)) == Some((lcd.width, lcd.height))
      ensures U8(rotation) > 3 ==> lcd.width == old(lcd.width) && lcd.height == old(lcd.height)
      ensures State() == old(State()).(screen := Screen(0, 0, 0, 0, fg, bg,
        Grid(lcd.width, lcd.height, scale).0, Grid(lcd.width, lcd.height, scale).1, false, scale))
    {
      var _ := lcd.SetRotation(U8(rotation));
      Reset(lcd.width, lcd.height, scale, bg, fg);
    }

    /** The assignments of `vt100_lcd_init` after the rotation, for a screen of `width` by `height` pixels. */
    method Reset(width: int, height: int, scale: int, bg: bv16, fg: bv16)
      requires scale != 0
      modifies this`cursCol, this`cursRow, this`saveCursCol, this`saveCursRow, this`backgroundColor,
        this`foregroundColor, this`lineWrap, this`maxRows, this`maxCols, this`fontScale
      ensures Scr() == Screen(0, 0, 0, 0, fg, bg, Grid(width, height, scale).0, Grid(width, height, scale).1, false, scale)
    {
      cursCol, cursRow, saveCursCol, saveCursRow := 0, 0, 0, 0;
      backgroundColor, foregroundColor := bg, fg;
      lineWrap := false;
      maxRows := U8(TruncDiv(height / PiLcd.FontPixHigh, scale));
      maxCols := U8(TruncDiv(width / PiLcd.FontPixWide, scale));
      fontScale := scale;
    }

    /** `vt100_lcd_putc`. */
    method Putc(transparent: int, c: char) returns (events: seq<Event>)
      requires Valid()
      modifies this, codeString
      ensures Valid()
      ensures (State(), events) == Step(old(State()), transparent, c)
    {
      events := [];
      if escape == EscBracket {
        var state;
        state, events := ParseEscapeSeq(transparent, c);
        escape := state;
      } else if escape == EscFound {
        if c == '[' {
          escape := EscBracket;
        } else {
          escape := EscNone;
        }
      } else if c == AsciiEsc {
        escape := EscFound;
      } else {
        events := PutPlain(transparent, c);
      }
    }

    /** The `switch` of `vt100_lcd_putc` for a character outside any escape sequence. */
    method PutPlain(transparent: int, c: char) returns (events: seq<Event>)
      requires Fits(Scr())
      modifies this`cursCol, this`cursRow
      ensures Fits(Scr())
      ensures (Scr(), events) == Plain(old(Scr()), transparent, c)
    {
      ghost var t := Scr();
      events := [];
      if c == AsciiCr {
        cursCol := 0;
      } else if c == AsciiLf {
        cursRow := U8(cursRow + 1);
        if cursRow == maxRows {
          cursRow := U8(cursRow - 1);
        }
      } else if c == AsciiBs {
        if cursCol > 0 {
          cursCol := cursCol - 1;
        }
      } else {
        events := [Glyph(cursCol * PiLcd.FontPixWide, cursRow * PiLcd.FontPixHigh, c, foregroundColor, backgroundColor, fontScale, transparent)];
        cursCol := U8(cursCol + 1);
        if cursCol == maxCols {
          if lineWrap {
            cursCol := 0;
            cursRow := U8(cursRow + 1);
            if cursRow == maxRows {
              cursRow := U8(cursRow - 1);
            }
          } else {
            cursCol := U8(cursCol - 1);
          }
        }
      }
      PlainFits(t, transparent, c);
    }

    /** `parseEscapeSeq`. */
    method ParseEscapeSeq(transparent: int, c: char) returns (state: int, events: seq<Event>)
      requires Valid()
      modifies this, codeString
      ensures Valid() && state == parseState
      ensures (State(), events) == Parse(old(State()), transparent, c)
    {
      ghost var t := State();
      if parseState == StateNone {
        ClearCode();
      }
      ghost var kept := code;
      assert kept == if t.parseState == StateNone then [] else t.code;
      if ParamChar(c) {
        parseState := StateDigit;
        Collect(c);
        events := [];
        assert State() == t.(parseState := StateDigit, code := if |kept| < CodeBuff then kept + [c] else kept);
      } else {
        parseState := StateNone;
        StrlenOfCode();
        var n1, n2 := GetEscapeParam(codeString);
        assert (n1, n2) == Params(kept);
        events := RunCommand(transparent, c, n1, n2);
        assert State() == Term(Command(t.screen, transparent, c, n1, n2).0, t.escape, StateNone, kept);
      }
      state := parseState;
    }

    /** The `memset` that empties the buffer when a sequence starts. */
    method ClearCode()
      requires codeString.Length == CodeBuff
      modifies this`codeLen, this`code, codeString
      ensures Buffer() && code == []
    {
      codeLen := 0;
      code := [];
      forall k | 0 <= k < codeString.Length {
        codeString[k] := '\0';
      }
    }

    /** One digit or ';' appended to the buffer while there is room for it. */
    method Collect(c: char)
      requires Buffer() && ParamChar(c)
      modifies this`codeLen, this`code, codeString
      ensures Buffer()
      ensures code == if |old(code)| < CodeBuff then old(code) + [c] else old(code)
    {
      if codeLen < CodeBuff {
        codeString[codeLen] := c;
        codeLen := codeLen + 1;
        code := code + [c];
      }
    }

    /** The collected text is what `strlen` sees in the buffer. */
    lemma StrlenOfCode()
      requires Buffer()
      ensures Strlen(codeString[..]) == codeLen && codeString[..Strlen(codeString[..])] == code
      ensures ParamText(code)
    {
      StrlenAt(codeString[..], codeLen);
    }

    /** The switch on the final letter of a sequence. */
    method RunCommand(transparent: int, c: char, n1: int, n2: int) returns (events: seq<Event>)
      requires Fits(Scr()) && n1 >= -1 && n2 >= -1
      modifies this`cursCol, this`cursRow, this`saveCursCol, this`saveCursRow, this`lineWrap,
        this`foregroundColor, this`backgroundColor
      ensures Fits(Scr())
      ensures (Scr(), events) == Command(old(Scr()), transparent, c, n1, n2)
    {
      ghost var t := Scr();
      events := [];
      if IsMotion(c) {
        Move(c, n1, n2);
      } else if c == 'K' {
        var st, en;
        if n1 == 1 {
          st, en := 0, cursCol;
        } else if n1 == 2 {
          st, en := 0, maxCols;
        } else {
          st, en := cursCol, maxCols;
        }
        events := EraseLine(transparent, st, en);
      } else if c == 'J' {
        if n1 == 2 {
          events := [Clear(backgroundColor)];
          cursCol, cursRow := 0, 0;
        }
      } else if c == 'm' {
        if 30 <= n1 <= 47 {
          SetAttribute(n1);
          SetAttribute(n2);
        }
      }
      CommandFits(t, transparent, c, n1, n2);
    }

    /** The cases of the switch that move the cursor or set line wrapping. */
    method Move(c: char, n1: int, n2: int)
      requires IsMotion(c)
      modifies this`cursCol, this`cursRow, this`saveCursCol, this`saveCursRow, this`lineWrap
      ensures Scr() == Motion(old(Scr()), c, n1, n2)
    {
      if c == 'h' || c == 'l' {
        if n1 == 7 {
          lineWrap := c == 'h';
        }
      } else if c == 'f' || c == 'H' {
        SetPosition(n1, n2);
      } else if c == 'A' || c == 'B' {
        MoveVertical(c, n1);
      } else if c == 'C' || c == 'D' {
        MoveHorizontal(c, n1);
      } else if c == 's' {
        saveCursCol, saveCursRow := cursCol, cursRow;
      } else {
        cursCol, cursRow := saveCursCol, saveCursRow;
      }
    }

    /** H and f. */
    method SetPosition(n1: int, n2: int)
      modifies this`cursCol, this`cursRow
      ensures Scr() == MoveTo(old(Scr()), n1, n2)
    {
      if 0 <= n1 < maxRows {
        cursRow := n1;
      }
      if 0 <= n2 < maxCols {
        cursCol := n2;
      }
      if n1 == -1 && n2 == -1 {
        cursRow, cursCol := 0, 0;
      }
    }

    /** A and B. */
    method MoveVertical(c: char, n1: int)
      modifies this`cursRow
      ensures Scr() == Vertical(old(Scr()), c, n1)
    {
      var n := if n1 == -1 then 1 else n1;
      if c == 'A' {
        if n > cursRow {
          cursRow := 0;
        } else {
          cursRow := cursRow - n;
        }
      } else {
        if n + cursRow >= maxRows {
          cursRow := maxRows;
        } else {
          cursRow := cursRow + n;
        }
      }
    }

    /** D and C. */
    method MoveHorizontal(c: char, n1: int)
      modifies this`cursCol
      ensures Scr() == Horizontal(old(Scr()), c, n1)
    {
      var n := if n1 == -1 then 1 else n1;
      if c == 'D' {
        if n > cursCol {
          cursCol := 0;
        } else {
          cursCol := cursCol - n;
        }
      } else {
        if n + cursCol >= maxCols {
          cursCol := maxCols;
        } else {
          cursCol := cursCol + n;
        }
      }
    }

    /** One attribute code of an `m` command. */
    method SetAttribute(n: int)
      modifies this`foregroundColor, this`backgroundColor
      ensures Scr() == SetColor(old(Scr()), n)
    {
      if n < 30 || n > 47 {
      } else if n <= 37 {
        foregroundColor := ConvertToColor(n - 30);
      } else if n >= 40 {
        backgroundColor := ConvertToColor(n - 40);
      }
    }

    /** The loop of the K command: a space glyph for each column from `st` up to `en`. */
    method EraseLine(transparent: int, st: int, en: int) returns (events: seq<Event>)
      ensures events == Erase(Scr(), transparent, st, en)
    {
      events := [];
      var j := st;
      while j < en
        invariant st <= j && (st <= en ==> j <= en) && (en < st ==> j == st)
        invariant events == Erase(Scr(), transparent, st, j)
        decreases en - j
      {
        events := events + [Glyph(j * PiLcd.FontPixWide, cursRow * PiLcd.FontPixHigh, ' ', foregroundColor, backgroundColor, fontScale, transparent)];
        j := j + 1;
      }
    }

    /**
     * `vt100_lcd_printf`, from the text the format produces: feeds the
     * characters its 80-character buffer keeps, and answers the length of
     * the whole formatted text.
     */
    method Printf(transparent: int, formatted: string) returns (printed: int, events: seq<Event>)
      requires Valid()
      modifies this, codeString
      ensures Valid()
      ensures printed == |formatted|
      ensures (State(), events) == Feed(old(State()), transparent, Shown(formatted))
    {
      var str := formatted[..Min(|formatted|, LineLen - 1)];
      assert Shown(formatted) == str[..Strlen(str)];
      ghost var t0 := State();
      events := [];
      var i := 0;
      while i < |str| && str[i] != '\0'
        invariant Valid() && 0 <= i <= Strlen(str)
        invariant (State(), events) == Feed(t0, transparent, str[..i])
        decreases |str| - i
      {
        assert str[..i + 1] == str[..i] + [str[i]];
        events := PutcAfter(t0, transparent, str[..i], events, str[i]);
        i := i + 1;
      }
      assert i == Strlen(str);
      assert str[..i] == Shown(formatted);
      printed := |formatted|;
    }

    /** One more character of a text being fed, with the events so far. */
    method PutcAfter(ghost t0: Term, transparent: int, ghost s: string, before: seq<Event>, c: char) returns (events: seq<Event>)
      requires Valid() && (State(), before) == Feed(t0, transparent, s)
      modifies this, codeString
      ensures Valid() && (State(), events) == Feed(t0, transparent, s + [c])
    {
      FeedSnoc(t0, transparent, s, c);
      var more := Putc(transparent, c);
      events := before + more;
    }
  }

  lemma {:induction false} StrlenAt(s: string, n: nat)
    requires n <= |s| && (n < |s| ==> s[n] == '\0')
    requires forall k :: 0 <= k < n ==> s[k] != '\0'
    ensures Strlen(s) == n
    decreases n
  {
    if n > 0 {
      StrlenAt(s[1..], n - 1);
    }
  }
}
