/**
 * The library text conversions the NMEA decoders rely on: the C library's
 * `isspace`, `strtol(s, NULL, 16)`, `atoi` and the `%Nd` / `%Nf` conversions
 * of `sscanf`, and Python's `int(s)`, `int(s, 16)` and `float(s)`.
 * Numbers are decimal (or hexadecimal) digit strings with an optional sign;
 * a real number may carry one '.' and a fractional part. Values are exact
 * integers and reals.
 */
module CText {
  import opened Wrappers

  /** `isspace` in the C locale: space, tab, newline, vertical tab, form feed, carriage return. */
  predicate IsSpace(c: char)
  {
    c == ' ' || 9 <= c as int <= 13
  }

  predicate IsDigit(c: char)
  {
    '0' <= c <= '9'
  }

  predicate IsHexDigit(c: char)
  {
    IsDigit(c) || 'a' <= c <= 'f' || 'A' <= c <= 'F'
  }

  /** A digit of base 16, or of base 10 for any other base. */
  predicate IsBaseDigit(c: char, base: nat)
  {
    if base == 16 then IsHexDigit(c) else IsDigit(c)
  }

  function DigitValue(c: char): nat
  {
    if IsDigit(c) then c as int - '0' as int
    else if 'a' <= c <= 'f' then c as int - 'a' as int + 10
    else if 'A' <= c <= 'F' then c as int - 'A' as int + 10
    else 0
  }

  predicate AllDigits(s: string, base: nat)
  {
    forall i :: 0 <= i < |s| ==> IsBaseDigit(s[i], base)
  }

  /** The value of a digit string read most significant digit first. */
  function NumberValue(s: string, base: nat): nat
  {
    if s == [] then 0 else NumberValue(s[..|s| - 1], base) * base + DigitValue(s[|s| - 1])
  }

  function Pow10(n: nat): (p: nat)
    ensures p >= 1
  {
    if n == 0 then 1 else 10 * Pow10(n - 1)
  }

  /** The value of the digits after a decimal point. */
  function Fraction(s: string): real
  {
    NumberValue(s, 10) as real / Pow10(|s|) as real
  }

  /** The decimal spelling of a natural number (no leading zeros, "0" for zero). */
  function DecimalText(n: nat): (s: string)
    ensures |s| >= 1 && AllDigits(s, 10)
  {
    if n < 10 then ['0' + n as char] else DecimalText(n / 10) + ['0' + (n % 10) as char]
  }

  /** Reading back the decimal spelling of a number gives the number. */
  lemma {:induction false} DecimalTextValue(n: nat)
    ensures NumberValue(DecimalText(n), 10) == n
  {
    var s := DecimalText(n);
    if n >= 10 {
      DecimalTextValue(n / 10);
      assert s[..|s| - 1] == DecimalText(n / 10);
    }
  }

  /** `s` with its leading white space removed. */
  function SkipSpace(s: string): (t: string)
    ensures |t| <= |s|
  {
    if s != [] && IsSpace(s[0]) then SkipSpace(s[1..]) else s
  }

  predicate AllSpace(s: string)
  {
    forall i :: 0 <= i < |s| ==> IsSpace(s[i])
  }

  /** The end of the run of digits (of `base`) starting at `i`, never reading at or past `limit`. */
  function DigitRunEnd(t: string, i: nat, limit: nat, base: nat): (j: nat)
    requires i <= limit <= |t|
    ensures i <= j <= limit
    decreases limit - i
  {
    if i < limit && IsBaseDigit(t[i], base) then DigitRunEnd(t, i + 1, limit, base) else i
  }

  function SignLength(t: string, limit: nat): (n: nat)
    requires limit <= |t|
    ensures n <= limit
  {
    if limit > 0 && (t[0] == '+' || t[0] == '-') then 1 else 0
  }

  /** A sign of length `n` at the head of `t` is a minus sign. */
  predicate Negative(t: string, n: nat)
    requires n <= |t|
  {
    n == 1 && t[0] == '-'
  }

  /** What a conversion produced and the text it left unread. */
  datatype Scanned<T> = Scanned(value: T, rest: string)

  /**
   * The `%<width>d` conversion of `sscanf`: skip white space, then read the
   * longest signed decimal integer of at most `width` characters; `None`
   * when no digit can be read (the conversion fails and assigns nothing).
   */
  function ScanInt(s: string, width: nat): (r: Option<Scanned<int>>)
    ensures r.Some? ==> |r.value.rest| < |s|
  {
    var t := SkipSpace(s);
    var limit := Min(width, |t|);
    var sign := SignLength(t, limit);
    var e := DigitRunEnd(t, sign, limit, 10);
    if e == sign then None
    else
      var v: int := NumberValue(t[sign..e], 10);
      Some(Scanned(if Negative(t, sign) then -v else v, t[e..]))
  }

  /**
   * The `%<width>f` conversion of `sscanf`: skip white space, then read the
   * longest prefix of at most `width` characters of the form
   * [sign] digits [. digits] holding at least one digit.
   */
  function ScanReal(s: string, width: nat): (r: Option<Scanned<real>>)
    ensures r.Some? ==> |r.value.rest| < |s|
  {
    var t := SkipSpace(s);
    var limit := Min(width, |t|);
    var sign := SignLength(t, limit);
    var e1 := DigitRunEnd(t, sign, limit, 10);
    var dot := e1 < limit && t[e1] == '.';
    var e2 := if dot then DigitRunEnd(t, e1 + 1, limit, 10) else e1;
    if e1 == sign && e2 <= e1 + 1 then None
    else
      var magnitude := NumberValue(t[sign..e1], 10) as real
                       + (if dot then Fraction(t[e1 + 1..e2]) else 0.0);
      Some(Scanned(if Negative(t, sign) then -magnitude else magnitude, t[e2..]))
  }

  /** `strtol(s, NULL, 16)`: white space, sign, an optional "0x", then hexadecimal digits (0 when none). */
  function StrToL16(s: string): int
  {
    var t := SkipSpace(s);
    var sign := SignLength(t, |t|);
    var u := t[sign..];
    var start := if |u| >= 3 && u[0] == '0' && (u[1] == 'x' || u[1] == 'X') && IsHexDigit(u[2]) then 2 else 0;
    var e := DigitRunEnd(u, start, |u|, 16);
    var v: int := NumberValue(u[start..e], 16);
    if Negative(t, sign) then -v else v
  }

  /** `atoi(s)`: white space, sign, then decimal digits (0 when none). */
  function AtoI(s: string): int
  {
    match ScanInt(s, |s|)
    case None => 0
    case Some(sc) => sc.value
  }

  /** Python's `int(s)`: the whole text, around white space, is a signed decimal integer. */
  function PyInt(s: string): Option<int>
  {
    match ScanInt(s, |s|)
    case None => None
    case Some(sc) => if AllSpace(sc.rest) then Some(sc.value) else None
  }

  /** Python's `float(s)`: the whole text, around white space, is a signed decimal number. */
  function PyFloat(s: string): Option<real>
  {
    match ScanReal(s, |s|)
    case None => None
    case Some(sc) => if AllSpace(sc.rest) then Some(sc.value) else None
  }

  /** Python's `int(s, 16)`: white space, sign, an optional "0x", at least one hexadecimal digit, white space. */
  function PyHexInt(s: string): Option<int>
  {
    var t := SkipSpace(s);
    var sign := SignLength(t, |t|);
    var u := t[sign..];
    var start := if |u| >= 3 && u[0] == '0' && (u[1] == 'x' || u[1] == 'X') && IsHexDigit(u[2]) then 2 else 0;
    var e := DigitRunEnd(u, start, |u|, 16);
    if e == start || !AllSpace(u[e..]) then None
    else
      var v: int := NumberValue(u[start..e], 16);
      Some(if Negative(t, sign) then -v else v)
  }

  /** A run of digits ends exactly where the first non-digit (or the limit) is. */
  lemma {:induction false} DigitRunEndAt(t: string, i: nat, k: nat, limit: nat, base: nat)
    requires i <= k <= limit <= |t|
    requires forall m :: i <= m < k ==> IsBaseDigit(t[m], base)
    requires k < limit ==> !IsBaseDigit(t[k], base)
    ensures DigitRunEnd(t, i, limit, base) == k
    decreases k - i
  {
    if i < k {
      DigitRunEndAt(t, i + 1, k, limit, base);
    }
  }

  /** What `DigitRunEnd` finds: digits up to it, and a non-digit (or the limit) at it. */
  lemma {:induction false} DigitRunEndSpec(t: string, i: nat, limit: nat, base: nat)
    requires i <= limit <= |t|
    ensures var j := DigitRunEnd(t, i, limit, base);
      AllDigits(t[i..j], base) && (j < limit ==> !IsBaseDigit(t[j], base))
    decreases limit - i
  {
    if i < limit && IsBaseDigit(t[i], base) {
      DigitRunEndSpec(t, i + 1, limit, base);
      var j := DigitRunEnd(t, i, limit, base);
      assert t[i..j] == [t[i]] + t[i + 1..j];
    }
  }

  /** What `SkipSpace` removes: a run of white space, up to a character that is not. */
  lemma {:induction false} SkipSpaceSpec(s: string)
    ensures var t := SkipSpace(s);
      t == s[|s| - |t|..] && AllSpace(s[..|s| - |t|]) && (t != [] ==> !IsSpace(t[0]))
  {
    if s != [] && IsSpace(s[0]) {
      SkipSpaceSpec(s[1..]);
      var t := SkipSpace(s);
      assert s[1..][|s| - 1 - |t|..] == s[|s| - |t|..];
      assert s[..|s| - |t|] == [s[0]] + s[1..][..|s| - 1 - |t|];
    }
  }

  /** `%<width>d` on unsigned digits that fit the width and are followed by a non-digit reads exactly those digits. */
  lemma {:induction false} ScanIntDigits(d: string, rest: string, width: nat)
    requires d != [] && AllDigits(d, 10) && |d| <= width
    requires rest == [] || !IsDigit(rest[0])
    ensures ScanInt(d + rest, width) == Some(Scanned(NumberValue(d, 10) as int, rest))
  {
    var s := d + rest;
    assert s[0] == d[0];
    assert SkipSpace(s) == s;
    var limit := Min(width, |s|);
    assert SignLength(s, limit) == 0;
    assert forall m :: 0 <= m < |d| ==> s[m] == d[m];
    assert |d| < limit ==> s[|d|] == rest[0];
    DigitRunEndAt(s, 0, |d|, limit, 10);
    assert s[0..|d|] == d && s[|d|..] == rest;
  }

  /** `sscanf` reads an unsigned decimal spelling back as its value when it fits the width. */
  lemma {:induction false} ScanIntDecimalText(n: nat, rest: string, width: nat)
    requires |DecimalText(n)| <= width
    requires rest == [] || !IsDigit(rest[0])
    ensures ScanInt(DecimalText(n) + rest, width) == Some(Scanned(n as int, rest))
  {
    ScanIntDigits(DecimalText(n), rest, width);
    DecimalTextValue(n);
  }

  /** `%<w>f` on exactly `w` digits reads them as a whole number and leaves the rest unread. */
  lemma {:induction false} ScanRealWholeWidth(dd: string, rest: string, w: nat)
    requires w > 0 && |dd| == w && AllDigits(dd, 10)
    ensures ScanReal(dd + rest, w) == Some(Scanned(NumberValue(dd, 10) as real, rest))
  {
    var t := dd + rest;
    assert t[0] == dd[0];
    assert SkipSpace(t) == t;
    assert forall m :: 0 <= m < w ==> t[m] == dd[m];
    DigitRunEndAt(t, 0, w, w, 10);
    assert t[0..w] == dd && t[w..] == rest;
  }

  /**
   * `%<w>f` on digits, a point and digits that fit the width reads their
   * decimal value; the conversion stops at the width or at the first
   * character that is not a digit.
   */
  lemma {:induction false} ScanRealDecimal(t: string, ip: string, fp: string, rest: string, w: nat)
    requires t == ip + ['.'] + fp + rest
    requires ip != [] && AllDigits(ip, 10) && AllDigits(fp, 10)
    requires |ip| + 1 + |fp| <= w
    requires |ip| + 1 + |fp| == w || rest == [] || !IsDigit(rest[0])
    ensures ScanReal(t, w) == Some(Scanned(NumberValue(ip, 10) as real + Fraction(fp), rest))
  {
    var n := |ip| + 1 + |fp|;
    var limit := Min(w, |t|);
    assert t[0] == ip[0] && t[|ip|] == '.';
    assert IsDigit(t[0]);
    assert SkipSpace(t) == t;
    assert SignLength(t, limit) == 0;
    assert DigitRunEnd(t, 0, limit, 10) == |ip| by {
      assert forall m :: 0 <= m < |ip| ==> t[m] == ip[m];
      DigitRunEndAt(t, 0, |ip|, limit, 10);
    }
    assert DigitRunEnd(t, |ip| + 1, limit, 10) == n by {
      assert forall m :: |ip| + 1 <= m < n ==> t[m] == fp[m - |ip| - 1];
      assert n < limit ==> t[n] == rest[0];
      DigitRunEndAt(t, |ip| + 1, n, limit, 10);
    }
    assert t[0..|ip|] == ip;
    assert t[|ip| + 1..n] == fp;
    assert t[n..] == rest;
  }
}
