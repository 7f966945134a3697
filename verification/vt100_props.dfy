/**
 * What the VT100 terminal of rpi/vt100lcd.c promises over whole character
 * streams: how escape sequences are collected and run, how plain text
 * advances the cursor, where the cursor can end up, and the text grid a
 * screen rotation gives.
 */
module Vt100Props {
  import opened Wrappers
  import opened CText
  import PiLcd
  import Arith
  import opened Vt100
  import opened Streams

  // ---------------------------------------------------------------------
  // Feeding text in pieces

  /** Feeding two texts one after the other is feeding their concatenation. */
  lemma {:induction false} FeedAppend(t: Term, transparent: int, a: string, b: string)
    ensures Feed(t, transparent, a + b).0 == Feed(Feed(t, transparent, a).0, transparent, b).0
    ensures Feed(t, transparent, a + b).1 == Feed(t, transparent, a).1 + Feed(Feed(t, transparent, a).0, transparent, b).1
  {
    RunAppend((u: Term, c: char) => Step(u, transparent, c), t, a, b);
  }

  // ---------------------------------------------------------------------
  // The escape state machine

  /**
   * The states the stream can be in between two characters: the escape
   * state is one of its three values, the parser collects only inside a
   * confirmed sequence, and the collected text is at most 32 digits and ';'.
   */
  predicate Coherent(t: Term)
  {
    (t.escape == EscNone || t.escape == EscFound || t.escape == EscBracket)
    && (t.parseState == StateNone || t.parseState == StateDigit)
    && (t.escape != EscBracket ==> t.parseState == StateNone)
    && |t.code| <= CodeBuff && ParamText(t.code)
  }

  /** Outside any escape sequence. */
  predicate Quiet(t: Term)
  {
    t.escape == EscNone && t.parseState == StateNone
  }

  lemma {:induction false} StepCoherent(t: Term, transparent: int, c: char)
    requires Coherent(t)
    ensures Coherent(Step(t, transparent, c).0)
  {
    if t.escape == EscBracket {
      var code := if t.parseState == StateNone then [] else t.code;
      if ParamChar(c) {
        var kept := if |code| < CodeBuff then code + [c] else code;
        assert Step(t, transparent, c).0.code == kept;
        assert ParamText(kept);
      }
    }
  }

  /** ESC outside a sequence starts one; nothing is drawn and the screen side is untouched. */
  lemma {:induction false} EscapeStarts(t: Term, transparent: int)
    requires Quiet(t)
    ensures Step(t, transparent, AsciiEsc) == (t.(escape := EscFound), [])
  {
  }

  /**
   * After ESC, a '[' confirms the sequence; any other character drops it,
   * and is neither drawn nor moves the cursor.
   */
  lemma {:induction false} EscapeConfirmed(t: Term, transparent: int, c: char)
    requires t.escape == EscFound
    ensures Step(t, transparent, c).1 == []
    ensures Step(t, transparent, c).0.screen == t.screen
    ensures Step(t, transparent, c).0.escape == (if c == '[' then EscBracket else EscNone)
  {
  }

  /** The part of a sequence's text the 32-character buffer keeps. */
  function Kept(body: string): (k: string)
    ensures |k| <= CodeBuff && |k| <= |body|
    ensures forall i :: 0 <= i < |k| ==> k[i] == body[i]
  {
    body[..Min(|body|, CodeBuff)]
  }

  /**
   * Digits and ';' inside a confirmed sequence are collected, the first one
   * replacing whatever an earlier sequence left, and only the first 32 are
   * kept; nothing is drawn.
   */
  lemma {:induction false} Collected(t: Term, transparent: int, body: string)
    requires t.escape == EscBracket && t.parseState == StateNone
    requires ParamText(body) && body != []
    ensures Feed(t, transparent, body) == (t.(parseState := StateDigit, code := Kept(body)), [])
    decreases |body|
  {
    var b' := body[..|body| - 1];
    var c := body[|body| - 1];
    assert body == b' + [c];
    assert ParamChar(c);
    if b' == [] {
      assert Feed(t, transparent, b') == (t, []);
    } else {
      assert ParamText(b');
      Collected(t, transparent, b');
    }
    CollectMore(t, transparent, b', c);
  }

  /** One more digit or ';' after the text collected so far. */
  lemma {:induction false} CollectMore(t: Term, transparent: int, b: string, c: char)
    requires t.escape == EscBracket && t.parseState == StateNone && ParamChar(c)
    requires Feed(t, transparent, b) == (if b == [] then t else t.(parseState := StateDigit, code := Kept(b)), [])
    ensures Feed(t, transparent, b + [c]) == (t.(parseState := StateDigit, code := Kept(b + [c])), [])
  {
    FeedSnoc(t, transparent, b, c);
    var v := if b == [] then t else t.(parseState := StateDigit, code := Kept(b));
    CollectStep(v, transparent, c);
    assert (if v.parseState == StateNone then [] else v.code) == Kept(b);
    KeptSnoc(b, c);
  }

  /** The buffer takes one more character exactly while it has room. */
  lemma {:induction false} KeptSnoc(b: string, c: char)
    ensures Kept(b + [c]) == if |Kept(b)| < CodeBuff then Kept(b) + [c] else Kept(b)
  {
    if |b| < CodeBuff {
      assert Kept(b) == b;
      assert Kept(b + [c]) == b + [c];
    } else {
      assert Kept(b + [c]) == (b + [c])[..CodeBuff] == b[..CodeBuff];
    }
  }

  /** Inside a confirmed sequence a digit or ';' is collected, while the buffer has room, and nothing is drawn. */
  lemma {:induction false} CollectStep(v: Term, transparent: int, c: char)
    requires v.escape == EscBracket && ParamChar(c)
    ensures var code := if v.parseState == StateNone then [] else v.code;
      Step(v, transparent, c) == (v.(parseState := StateDigit, code := if |code| < CodeBuff then code + [c] else code), [])
  {
  }

  /** The final character of a confirmed sequence runs the command on the text collected so far. */
  lemma {:induction false} Finish(v: Term, transparent: int, c: char)
    requires v.escape == EscBracket && !ParamChar(c)
    ensures var code := if v.parseState == StateNone then [] else v.code;
      var run := Command(v.screen, transparent, c, Params(code).0, Params(code).1);
      Step(v, transparent, c) == (Term(run.0, EscNone, StateNone, code), run.1)
  {
    var code := if v.parseState == StateNone then [] else v.code;
    var run := Command(v.screen, transparent, c, Params(code).0, Params(code).1);
    var p := Parse(v, transparent, c);
    assert p == (Term(run.0, v.escape, StateNone, code), run.1);
    assert Step(v, transparent, c) == (p.0.(escape := p.0.parseState), p.1);
  }

  /**
   * A whole sequence: ESC, '[', digits and ';', then a final character that
   * is neither. The final character runs its command with the parameters of
   * the kept text, and the terminal is back outside any sequence.
   */
  lemma {:induction false} EscapeSequence(t: Term, transparent: int, body: string, c: char)
    requires Quiet(t) && ParamText(body) && !ParamChar(c)
    ensures var run := Command(t.screen, transparent, c, Params(Kept(body)).0, Params(Kept(body)).1);
      Feed(t, transparent, [AsciiEsc, '['] + body + [c]) == (Term(run.0, EscNone, StateNone, Kept(body)), run.1)
  {
    var intro := [AsciiEsc, '['];
    assert intro == [] + [AsciiEsc] + ['['];
    FeedSnoc(t, transparent, [], AsciiEsc);
    assert Feed(t, transparent, []) == (t, []);
    assert Feed(t, transparent, [AsciiEsc]) == (t.(escape := EscFound), []);
    FeedSnoc(t, transparent, [AsciiEsc], '[');
    var u := t.(escape := EscBracket);
    assert Feed(t, transparent, intro) == (u, []);
    FeedAppend(t, transparent, intro, body);
    var v := if body == [] then u else u.(parseState := StateDigit, code := Kept(body));
    if body != [] {
      Collected(u, transparent, body);
    } else {
      assert intro + body == intro;
      assert Feed(u, transparent, body) == (u, []);
    }
    assert Feed(t, transparent, intro + body) == (v, []);
    FeedSnoc(t, transparent, intro + body, c);
    Finish(v, transparent, c);
    assert Kept(body) == (if v.parseState == StateNone then [] else v.code);
    assert v.screen == t.screen;
    var run := Command(t.screen, transparent, c, Params(Kept(body)).0, Params(Kept(body)).1);
    assert Step(v, transparent, c) == (Term(run.0, EscNone, StateNone, Kept(body)), run.1);
    assert [AsciiEsc, '['] + body + [c] == intro + body + [c];
    assert Feed(t, transparent, intro + body).1 + run.1 == run.1;
  }

  /** Two numbers below 1000 joined by ';' are parameter text that the buffer keeps whole. */
  lemma {:induction false} NumbersText(a: nat, b: nat)
    requires a < 1000 && b < 1000
    ensures var body := DecimalText(a) + [';'] + DecimalText(b);
      ParamText(body) && Kept(body) == body && Params(Kept(body)) == (a, b)
  {
    var body := DecimalText(a) + [';'] + DecimalText(b);
    DecimalTextShort(a);
    DecimalTextShort(b);
    assert Kept(body) == body;
    ParamsOfNumbers(a, b, []);
    assert body + [] == body;
    JoinedParamText(DecimalText(a), DecimalText(b));
  }

  /** Two decimal spellings joined by ';' are parameter text. */
  lemma {:induction false} JoinedParamText(x: string, y: string)
    requires AllDigits(x, 10) && AllDigits(y, 10)
    ensures ParamText(x + [';'] + y)
  {
    var body := x + [';'] + y;
    forall k | 0 <= k < |body|
      ensures ParamChar(body[k])
    {
      if k < |x| {
        assert body[k] == x[k];
      } else if k > |x| {
        assert body[k] == y[k - |x| - 1];
      }
    }
  }

  /** `ESC[r;cH` puts the cursor at row r and column c of the grid and draws nothing. */
  lemma {:induction false} MoveToSequence(t: Term, transparent: int, r: nat, c: nat)
    requires Quiet(t) && Fits(t.screen)
    requires r < t.screen.maxRows && c < t.screen.maxCols
    ensures var body := DecimalText(r) + [';'] + DecimalText(c);
      Feed(t, transparent, [AsciiEsc, '['] + body + ['H']) == (t.(screen := t.screen.(row := r, col := c), code := body), [])
  {
    var body := DecimalText(r) + [';'] + DecimalText(c);
    NumbersText(r, c);
    EscapeSequence(t, transparent, body, 'H');
    assert Command(t.screen, transparent, 'H', r, c) == (MoveTo(t.screen, r, c), []);
  }

  /** `ESC[3f;4bm` sets the foreground to colour f and the background to colour b, and draws nothing. */
  lemma {:induction false} ColourSequence(t: Term, transparent: int, f: nat, b: nat)
    requires Quiet(t) && f < 8 && b < 8
    ensures var body := DecimalText(30 + f) + [';'] + DecimalText(40 + b);
      Feed(t, transparent, [AsciiEsc, '['] + body + ['m'])
        == (t.(screen := t.screen.(fg := ConvertToColor(f), bg := ConvertToColor(b)), code := body), [])
  {
    var body := DecimalText(30 + f) + [';'] + DecimalText(40 + b);
    NumbersText(30 + f, 40 + b);
    EscapeSequence(t, transparent, body, 'm');
    ColourCommand(t.screen, transparent, f, b);
  }

  lemma {:induction false} ColourCommand(s: Screen, transparent: int, f: nat, b: nat)
    requires f < 8 && b < 8
    ensures Command(s, transparent, 'm', 30 + f, 40 + b) == (s.(fg := ConvertToColor(f), bg := ConvertToColor(b)), [])
  {
    assert !IsMotion('m');
    assert SetColor(s, 30 + f) == s.(fg := ConvertToColor(f));
  }

  // ---------------------------------------------------------------------
  // What each command does

  /**
   * H and f: a coordinate is taken only when it lies on the grid and is
   * left alone otherwise; no parameters at all home the cursor. Nothing
   * but the cursor changes and nothing is drawn.
   */
  lemma {:induction false} CursorPosition(s: Screen, transparent: int, c: char, n1: int, n2: int)
    requires c == 'H' || c == 'f'
    ensures var r := Command(s, transparent, c, n1, n2);
      && r.1 == []
      && r.0 == s.(row := r.0.row, col := r.0.col)
      && (n1 == -1 && n2 == -1 ==> r.0.row == 0 && r.0.col == 0)
      && (n1 != -1 || n2 != -1 ==>
            (0 <= n1 < s.maxRows ==> r.0.row == n1) && (!(0 <= n1 < s.maxRows) ==> r.0.row == s.row)
            && (0 <= n2 < s.maxCols ==> r.0.col == n2) && (!(0 <= n2 < s.maxCols) ==> r.0.col == s.col))
  {
    assert Command(s, transparent, c, n1, n2) == (MoveTo(s, n1, n2), []);
  }

  /**
   * A and D move up or left by the count (one when it is missing) and stop
   * at 0; B and C move down or right by the count and stop at exactly
   * `maxRows` or `maxCols`, one past the last row or column. Nothing but
   * the moved coordinate changes and nothing is drawn.
   */
  lemma {:induction false} CursorMoves(s: Screen, transparent: int, c: char, n1: int, n2: int)
    requires Fits(s) && n1 >= -1 && (c == 'A' || c == 'B' || c == 'C' || c == 'D')
    ensures var r := Command(s, transparent, c, n1, n2); var n := if n1 == -1 then 1 else n1;
      && r.1 == []
      && (c == 'A' ==> r.0 == s.(row := r.0.row) && (r.0.row == s.row - n || (r.0.row == 0 && n > s.row)) && r.0.row >= 0)
      && (c == 'D' ==> r.0 == s.(col := r.0.col) && (r.0.col == s.col - n || (r.0.col == 0 && n > s.col)) && r.0.col >= 0)
      && (c == 'B' ==>
            r.0 == s.(row := r.0.row) && (s.row + n < s.maxRows ==> r.0.row == s.row + n) && (s.row + n >= s.maxRows ==> r.0.row == s.maxRows))
      && (c == 'C' ==>
            r.0 == s.(col := r.0.col) && (s.col + n < s.maxCols ==> r.0.col == s.col + n) && (s.col + n >= s.maxCols ==> r.0.col == s.maxCols))
  {
    if c == 'A' || c == 'B' {
      assert Command(s, transparent, c, n1, n2) == (Vertical(s, c, n1), []);
    } else {
      assert Command(s, transparent, c, n1, n2) == (Horizontal(s, c, n1), []);
    }
  }

  /** The space glyphs of an erase: one per column from `lo` up to `hi`, in column order, on the cursor row. */
  lemma {:induction false} EraseAt(t: Screen, transparent: int, lo: int, hi: int)
    ensures |Erase(t, transparent, lo, hi)| == if hi <= lo then 0 else hi - lo
    ensures forall k :: 0 <= k < |Erase(t, transparent, lo, hi)| ==>
      Erase(t, transparent, lo, hi)[k] == Glyph((lo + k) * PiLcd.FontPixWide, t.row * PiLcd.FontPixHigh, ' ', t.fg, t.bg, t.scale, transparent)
    decreases hi - lo
  {
    if lo < hi {
      EraseAt(t, transparent, lo, hi - 1);
    }
  }

  /**
   * K: spaces over the cursor row, from column 0 up to the cursor for the
   * parameter 1, over the whole row for 2, and from the cursor to the end
   * of the row otherwise; the cursor does not move.
   */
  lemma {:induction false} EraseInLine(s: Screen, transparent: int, n1: int, n2: int)
    ensures var r := Command(s, transparent, 'K', n1, n2);
      var lo := if n1 == 1 || n1 == 2 then 0 else s.col;
      var hi := if n1 == 1 then s.col else s.maxCols;
      && r.0 == s
      && |r.1| == (if hi <= lo then 0 else hi - lo)
      && forall k :: 0 <= k < |r.1| ==>
           r.1[k] == Glyph((lo + k) * PiLcd.FontPixWide, s.row * PiLcd.FontPixHigh, ' ', s.fg, s.bg, s.scale, transparent)
  {
    var lo := if n1 == 1 || n1 == 2 then 0 else s.col;
    var hi := if n1 == 1 then s.col else s.maxCols;
    assert Command(s, transparent, 'K', n1, n2) == (s, Erase(s, transparent, lo, hi));
    EraseAt(s, transparent, lo, hi);
  }

  /** J: only the parameter 2 acts, clearing the screen to the background colour and homing the cursor. */
  lemma {:induction false} EraseInDisplay(s: Screen, transparent: int, n1: int, n2: int)
    ensures n1 == 2 ==> Command(s, transparent, 'J', n1, n2) == (s.(row := 0, col := 0), [Clear(s.bg)])
    ensures n1 != 2 ==> Command(s, transparent, 'J', n1, n2) == (s, [])
  {
  }

  /**
   * m: a first parameter outside 30..47 changes nothing, and then the
   * second is ignored too; otherwise each of the two parameters in 30..37
   * sets the foreground and in 40..47 the background, the second winning.
   * Only the colours change and nothing is drawn.
   */
  lemma {:induction false} SelectRendition(s: Screen, transparent: int, n1: int, n2: int)
    ensures var r := Command(s, transparent, 'm', n1, n2);
      && r.1 == []
      && r.0 == s.(fg := r.0.fg, bg := r.0.bg)
      && (!(30 <= n1 <= 47) ==> r.0 == s)
      && (30 <= n1 <= 47 ==>
            && r.0.fg == (if 30 <= n2 <= 37 then ConvertToColor(n2 - 30) else if n1 <= 37 then ConvertToColor(n1 - 30) else s.fg)
            && r.0.bg == (if 40 <= n2 <= 47 then ConvertToColor(n2 - 40) else if n1 >= 40 then ConvertToColor(n1 - 40) else s.bg))
  {
    if 30 <= n1 <= 47 {
      assert Command(s, transparent, 'm', n1, n2) == (SetColor(SetColor(s, n1), n2), []);
    }
  }

  // ---------------------------------------------------------------------
  // Plain text

  /**
   * Printable characters that stay short of the line's end are drawn one
   * font cell apart on the cursor row, and the column advances by their
   * number.
   */
  lemma {:induction false} PlainRun(t: Term, transparent: int, s: string)
    requires Quiet(t) && 0 <= t.screen.col && t.screen.col + |s| < t.screen.maxCols < 256
    requires forall k :: 0 <= k < |s| ==> Printable(s[k])
    ensures Feed(t, transparent, s).0 == t.(screen := t.screen.(col := t.screen.col + |s|))
    ensures |Feed(t, transparent, s).1| == |s|
    ensures forall k :: 0 <= k < |s| ==>
      Feed(t, transparent, s).1[k] == Glyph((t.screen.col + k) * PiLcd.FontPixWide, t.screen.row * PiLcd.FontPixHigh, s[k],
                                              t.screen.fg, t.screen.bg, t.screen.scale, transparent)
    decreases |s|
  {
    if s != [] {
      var s' := s[..|s| - 1];
      var c := s[|s| - 1];
      assert s == s' + [c];
      PlainRun(t, transparent, s');
      var u := t.(screen := t.screen.(col := t.screen.col + |s'|));
      FeedSnoc(t, transparent, s', c);
      PlainStep(u, transparent, c);
      var before := Feed(t, transparent, s').1;
      var drawn := Glyph(u.screen.col * PiLcd.FontPixWide, t.screen.row * PiLcd.FontPixHigh, c,
                         t.screen.fg, t.screen.bg, t.screen.scale, transparent);
      assert Feed(t, transparent, s).1 == before + [drawn];
      forall k | 0 <= k < |s|
        ensures Feed(t, transparent, s).1[k] == Glyph((t.screen.col + k) * PiLcd.FontPixWide, t.screen.row * PiLcd.FontPixHigh, s[k],
                                                      t.screen.fg, t.screen.bg, t.screen.scale, transparent)
      {
        if k < |s'| {
          assert s[k] == s'[k];
        }
      }
    }
  }

  /** One printable character short of the line's end: drawn at the cursor, which moves one column right. */
  lemma {:induction false} PlainStep(u: Term, transparent: int, c: char)
    requires Quiet(u) && Printable(c) && 0 <= u.screen.col && u.screen.col + 1 < u.screen.maxCols < 256
    ensures Step(u, transparent, c) == (u.(screen := u.screen.(col := u.screen.col + 1)),
      [Glyph(u.screen.col * PiLcd.FontPixWide, u.screen.row * PiLcd.FontPixHigh, c, u.screen.fg, u.screen.bg, u.screen.scale, transparent)])
  {
  }

  /**
   * A character drawn in the last column: with line wrapping on the cursor
   * goes to the start of the next row (the last row stays the last);
   * otherwise it stays in the last column.
   */
  lemma {:induction false} LineEnd(s: Screen, transparent: int, c: char)
    requires Printable(c) && 0 < s.maxCols < 256 && 0 <= s.row < s.maxRows < 256
    requires s.col == s.maxCols - 1
    ensures s.lineWrap ==> Plain(s, transparent, c).0.col == 0
    ensures s.lineWrap ==> Plain(s, transparent, c).0.row == (if s.row + 1 < s.maxRows then s.row + 1 else s.row)
    ensures !s.lineWrap ==> Plain(s, transparent, c).0 == s
  {
  }

  /**
   * CR, LF and BS draw nothing and move only the cursor: CR to column 0,
   * LF one row down (the `uint8_t` row wrapping at 256) except that landing
   * exactly on `maxRows` stays on the row, and BS one column left, never
   * below 0.
   */
  lemma {:induction false} ControlCharacters(s: Screen, transparent: int)
    requires Fits(s)
    ensures Plain(s, transparent, AsciiCr) == (s.(col := 0), [])
    ensures Plain(s, transparent, AsciiLf) == (s.(row := if (s.row + 1) % 256 == s.maxRows then s.row else (s.row + 1) % 256), [])
    ensures Plain(s, transparent, AsciiBs) == (s.(col := if s.col > 0 then s.col - 1 else 0), [])
  {
  }

  // ---------------------------------------------------------------------
  // Where the cursor can be

  /** The cursor and the saved cursor are cells of the grid. */
  predicate OnScreen(s: Screen)
  {
    0 <= s.col < s.maxCols < 256 && 0 <= s.row < s.maxRows < 256
    && 0 <= s.savedCol < s.maxCols && 0 <= s.savedRow < s.maxRows
  }

  lemma {:induction false} PlainOnScreen(s: Screen, transparent: int, c: char)
    requires OnScreen(s)
    ensures OnScreen(Plain(s, transparent, c).0)
  {
  }

  /** Every command except B and C keeps the cursor on the grid. */
  lemma {:induction false} CommandOnScreen(s: Screen, transparent: int, c: char, n1: int, n2: int)
    requires OnScreen(s) && n1 >= -1 && c != 'B' && c != 'C'
    ensures OnScreen(Command(s, transparent, c, n1, n2).0)
  {
    if IsMotion(c) {
      MotionOnScreen(s, c, n1, n2);
    } else if c == 'J' && n1 == 2 {
      assert Command(s, transparent, c, n1, n2).0 == s.(col := 0, row := 0);
    } else if c == 'm' && 30 <= n1 <= 47 {
      assert Command(s, transparent, c, n1, n2).0 == SetColor(SetColor(s, n1), n2);
    } else {
      assert Command(s, transparent, c, n1, n2).0 == s;
    }
  }

  lemma {:induction false} MotionOnScreen(s: Screen, c: char, n1: int, n2: int)
    requires OnScreen(s) && n1 >= -1 && IsMotion(c) && c != 'B' && c != 'C'
    ensures OnScreen(Motion(s, c, n1, n2))
  {
    var m := Motion(s, c, n1, n2);
    if c == 'h' || c == 'l' {
      assert m == Wrapping(s, c, n1);
    } else if c == 'f' || c == 'H' {
      assert m == MoveTo(s, n1, n2);
    } else if c == 'A' {
      assert m == Vertical(s, c, n1);
    } else if c == 'D' {
      assert m == Horizontal(s, c, n1);
    } else {
      assert m == SaveRestore(s, c);
    }
  }

  /** One character anywhere in the stream keeps the cursor on the grid, unless it ends a B or C sequence. */
  lemma {:induction false} StepOnScreen(t: Term, transparent: int, c: char)
    requires OnScreen(t.screen) && !(t.escape == EscBracket && (c == 'B' || c == 'C'))
    ensures OnScreen(Step(t, transparent, c).0.screen)
  {
    if t.escape == EscBracket {
      if !ParamChar(c) {
        Finish(t, transparent, c);
        var code := if t.parseState == StateNone then [] else t.code;
        CommandOnScreen(t.screen, transparent, c, Params(code).0, Params(code).1);
      }
    } else if t.escape != EscFound && c != AsciiEsc {
      PlainOnScreen(t.screen, transparent, c);
    }
  }

  /**
   * B with a count reaching past the last row puts the cursor on row
   * `maxRows`, outside the grid, and a line feed from there moves it one
   * row further down instead of back.
   */
  lemma {:induction false} DownPastLastRow(s: Screen, transparent: int, n1: int, n2: int)
    requires OnScreen(s) && s.maxRows < 255 && n1 >= s.maxRows - s.row
    ensures Command(s, transparent, 'B', n1, n2).0.row == s.maxRows
    ensures !OnScreen(Command(s, transparent, 'B', n1, n2).0)
    ensures Plain(Command(s, transparent, 'B', n1, n2).0, transparent, AsciiLf).0.row == s.maxRows + 1
  {
    assert Command(s, transparent, 'B', n1, n2).0 == Vertical(s, 'B', n1);
  }

  /** Saving the cursor, moving it, and restoring it brings it back. */
  lemma {:induction false} SaveRestoreRoundTrip(s: Screen, c: char, n1: int, n2: int)
    requires IsMotion(c) && c != 's'
    ensures var back := Motion(Motion(Motion(s, 's', -1, -1), c, n1, n2), 'u', -1, -1);
      back.col == s.col && back.row == s.row
  {
    var saved := Motion(s, 's', -1, -1);
    var m := Motion(saved, c, n1, n2);
    assert m.savedCol == s.col && m.savedRow == s.row by {
      if c == 'h' || c == 'l' {
        assert m == Wrapping(saved, c, n1);
      } else if c == 'f' || c == 'H' {
        assert m == MoveTo(saved, n1, n2);
      } else if c == 'A' || c == 'B' {
        assert m == Vertical(saved, c, n1);
      } else if c == 'C' || c == 'D' {
        assert m == Horizontal(saved, c, n1);
      }
    }
  }

  // ---------------------------------------------------------------------
  // The text grid

  /**
   * For every rotation and every positive scale the grid fits on the
   * screen and is as large as fits: one more row or column would not.
   */
  lemma {:induction false} GridFits(mode: int, scale: int)
    requires 0 <= mode <= 3 && scale >= 1
    ensures var size := PiLcd.ScreenSize(mode).value;
      var g := Grid(size.0, size.1, scale);
      g.0 * scale * PiLcd.FontPixHigh <= size.1 < (g.0 + 1) * scale * PiLcd.FontPixHigh
      && g.1 * scale * PiLcd.FontPixWide <= size.0 < (g.1 + 1) * scale * PiLcd.FontPixWide
  {
    var size := PiLcd.ScreenSize(mode).value;
    GridFitsScreen(size.0, size.1, scale);
  }

  lemma {:induction false} GridFitsScreen(width: nat, height: nat, scale: int)
    requires width < 256 * PiLcd.FontPixWide && height < 256 * PiLcd.FontPixHigh && scale >= 1
    ensures var g := Grid(width, height, scale);
      g.0 * scale * PiLcd.FontPixHigh <= height < (g.0 + 1) * scale * PiLcd.FontPixHigh
      && g.1 * scale * PiLcd.FontPixWide <= width < (g.1 + 1) * scale * PiLcd.FontPixWide
  {
    CellsFit(height, PiLcd.FontPixHigh, scale);
    CellsFit(width, PiLcd.FontPixWide, scale);
    assert Grid(width, height, scale).0 == height / PiLcd.FontPixHigh / scale;
    assert Grid(width, height, scale).1 == width / PiLcd.FontPixWide / scale;
  }

  /** `pixels / cell / scale` cells of `cell * scale` pixels fit in `pixels`, and one more does not. */
  lemma {:induction false} CellsFit(pixels: nat, cell: int, scale: int)
    requires cell >= 1 && scale >= 1
    ensures 0 <= pixels / cell / scale <= pixels / cell
    ensures pixels / cell / scale * scale * cell <= pixels < (pixels / cell / scale + 1) * scale * cell
  {
    var n := pixels / cell;
    var q := n / scale;
    Arith.DivFits(n, scale);
    Arith.DivFits(pixels, cell);
    CellsBelow(pixels, cell, n, q * scale);
    CellsAbove(pixels, cell, n, (q + 1) * scale);
    Arith.MulLe(1, scale, q);
  }

  lemma {:induction false} CellsBelow(pixels: int, cell: int, n: int, m: int)
    requires cell >= 1 && m <= n && n * cell <= pixels
    ensures m * cell <= pixels
  {
    Arith.MulLe(m, n, cell);
  }

  lemma {:induction false} CellsAbove(pixels: int, cell: int, n: int, m: int)
    requires cell >= 1 && n + 1 <= m && pixels < (n + 1) * cell
    ensures pixels < m * cell
  {
    Arith.MulLe(n + 1, m, cell);
  }

  /** At scale 1 the portrait screen holds 20 rows of 21 characters, the landscape one 16 rows of 26. */
  lemma {:induction false} GridAtScaleOne(mode: int)
    requires 0 <= mode <= 3
    ensures var size := PiLcd.ScreenSize(mode).value;
      Grid(size.0, size.1, 1) == if mode % 2 == 0 then (20, 21) else (16, 26)
  {
  }
}
