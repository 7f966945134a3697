/**
 * `process_nmea` of nmea.py, the Python reference decoder of NMEA
 * sentences, beside the C decoder of rpi/util.c. It strips the leading '$'
 * characters, cuts the line at the first '*', reads the text after it as a
 * hexadecimal checksum and compares it with the XOR of the bytes before it,
 * prints "[ok ]" or "[err]" with the sentence, and then decodes GGA and RMC
 * sentences whatever the checksum said.
 *
 * The outcome is the list of lines printed, each with the values it shows,
 * and whether a Python exception ended the call: a checksum that is not
 * hexadecimal, a field that is missing or a number that does not parse
 * raises after the lines already printed. Numbers are exact reals.
 */
module NmeaPy {
  import opened Wrappers
  import opened Bytes
  import opened CText
  import opened Util
  import NmeaPosition

  /** Knots to miles per hour, as the script writes it. */
  const MphPerKnot: real := 1.150779

  /** One printed line, with the values it formats. */
  datatype Printed =
    | Status(ok: bool, payload: string)
    | FixTime(hour: string, minute: string, second: string)
    | Satellites(count: string)
    | Latitude(degrees: real)
    | Longitude(degrees: real)
    | GroundSpeed(mph: real)
    | Heading(degrees: real)
    | InvalidFix

  /** The lines printed, in order, and whether an exception ended the call. */
  datatype Outcome = Outcome(printed: seq<Printed>, raised: bool)

  // ---------------------------------------------------------------------
  // Python string operations

  /**
   * `s.partition(sep)`: the text before the first `sep`, the separator and
   * the text after it; `(s, "", "")` when `s` holds no `sep`.
   */
  function Partition(s: string, sep: char): (r: (string, string, string))
    ensures sep in s ==> r.0 + [sep] + r.2 == s && sep !in r.0 && r.1 == [sep]
    ensures sep !in s ==> r == (s, "", "")
  {
    FindSpec(s, sep);
    var e := Find(s, sep);
    assert e == |s| ==> s[..e] == s;
    if e == |s| then (s, "", "") else (s[..e], [sep], s[e + 1..])
  }

  /** `s[i:j]` for `0 <= i <= j`: positions past the end are dropped. */
  function Slice(s: string, i: nat, j: nat): string
    requires i <= j
  {
    s[Min(i, |s|)..Min(j, |s|)]
  }

  /** `s[i:]`. */
  function From(s: string, i: nat): string
  {
    s[Min(i, |s|)..]
  }

  /**
   * `float(t[:n]) + float(t[n:]) / 60`: a coordinate field whose first `n`
   * characters are whole degrees and the rest decimal minutes; `None` when
   * either part does not parse.
   */
  function Degrees(t: string, n: nat): Option<real>
  {
    match PyFloat(Slice(t, 0, n))
    case None => None
    case Some(deg) =>
      match PyFloat(From(t, n))
      case None => None
      case Some(min) => Some(deg + min / 60.0)
  }

  // ---------------------------------------------------------------------
  // The decoder

  /**
   * The lines of the GGA branch after the status line: with fix quality 1
   * the time, the satellite count, the latitude (negated for 'S') and the
   * longitude (negated for 'W'); "Invalid fix." otherwise.
   */
  function GgaLines(fields: seq<string>): Outcome
  {
    if |fields| <= 6 then Outcome([], true)
    else
      match PyInt(fields[6])
      case None => Outcome([], true)
      case Some(quality) =>
        if quality != 1 then Outcome([InvalidFix], false)
        else
          var time := FixTime(Slice(fields[1], 0, 2), Slice(fields[1], 2, 4), Slice(fields[1], 4, 6));
          if |fields| <= 7 then Outcome([time], true)
          else
            var shown := [time, Satellites(fields[7])];
            match Degrees(fields[2], 2)
            case None => Outcome(shown, true)
            case Some(lat) =>
              var latitude := Latitude(if fields[3] == "S" then -lat else lat);
              match Degrees(fields[4], 3)
              case None => Outcome(shown + [latitude], true)
              case Some(long) => Outcome(shown + [latitude, Longitude(if fields[5] == "W" then -long else long)], false)
  }

  /**
   * The lines of the RMC branch after the status line: with status "A" the
   * ground speed in miles per hour and the heading; "Invalid fix." otherwise.
   */
  function RmcLines(fields: seq<string>): Outcome
  {
    if |fields| <= 2 then Outcome([], true)
    else if fields[2] != "A" then Outcome([InvalidFix], false)
    else if |fields| <= 7 then Outcome([], true)
    else
      match PyFloat(fields[7])
      case None => Outcome([], true)
      case Some(knots) =>
        var speed := GroundSpeed(knots * MphPerKnot);
        if |fields| <= 8 then Outcome([speed], true)
        else
          match PyFloat(fields[8])
          case None => Outcome([speed], true)
          case Some(heading) => Outcome([speed, Heading(heading)], false)
  }

  /**
   * What the script does with the text before '*' once the checksum has
   * been read: GGA and RMC sentences print the status line and their
   * branch; GSA, GSV, GLL, VTG and any other sentence print nothing.
   */
  function Interpret(payload: string, ok: bool): (o: Outcome)
    ensures o.printed != [] <==> Fields(payload, ',')[0] in {"GPGGA", "GPRMC"}
    ensures o.printed != [] ==> o.printed[0] == Status(ok, payload)
    ensures Fields(payload, ',')[0] !in {"GPGGA", "GPRMC"} ==> o == Outcome([], false)
  {
    var fields := Fields(payload, ',');
    var branch :=
      if fields[0] == "GPGGA" then GgaLines(fields)
      else if fields[0] == "GPRMC" then RmcLines(fields)
      else Outcome([], false);
    if fields[0] in {"GPGGA", "GPRMC"} then Outcome([Status(ok, payload)] + branch.printed, branch.raised)
    else branch
  }

  /** `process_nmea(line)`. */
  function Process(line: string): Outcome
  {
    var parts := Partition(LStripped(line, Some("$")), '*');
    match PyHexInt(parts.2)
    case None => Outcome([], true)
    case Some(checksum) => Interpret(parts.0, checksum == XorAll(parts.0) as int)
  }

  /** `process_nmea(line)`, with its checksum loop. */
  method ProcessNmea(line: string) returns (o: Outcome)
    ensures o == Process(line)
  {
    var text := LStripped(line, Some("$"));
    var parts := Partition(text, '*');
    var checksum := PyHexInt(parts.2);
    if checksum.None? {
      return Outcome([], true);
    }
    var checksumTest := ChecksumTest(parts.0);
    o := Interpret(parts.0, checksum.value == checksumTest);
  }

  /** The loop `for c in nmea_parts[0]: checksum_test ^= ord(c)`. */
  method ChecksumTest(payload: string) returns (checksumTest: int)
    ensures 0 <= checksumTest < 256
    ensures checksumTest == XorAll(payload) as int
  {
    var acc: bv8 := 0;
    for i := 0 to |payload|
      invariant acc == XorAll(payload[..i])
    {
      assert payload[..i + 1][..i] == payload[..i];
      acc := acc ^ ByteOf(payload[i]);
    }
    assert payload[..|payload|] == payload;
    checksumTest := acc as int;
  }

  // ---------------------------------------------------------------------
  // Properties

  /**
   * The checksum does not gate decoding: with a matching or a mismatching
   * checksum the script prints the same lines and raises alike; only the
   * status line differs.
   */
  lemma {:induction false} ChecksumDoesNotGate(payload: string)
    ensures var good, bad := Interpret(payload, true), Interpret(payload, false);
      && good.raised == bad.raised && |good.printed| == |bad.printed|
      && (good.printed != [] ==>
            && good.printed[1..] == bad.printed[1..]
            && good.printed[0] == Status(true, payload)
            && bad.printed[0] == Status(false, payload))
  {
  }

  /** The line "$<payload>*<declared>" is interpreted from its payload, with the status its declared checksum gives. */
  lemma {:induction false} FramedProcess(payload: string, declared: string)
    requires '*' !in payload && (payload == [] || payload[0] != '$')
    ensures PyHexInt(declared).None? ==> Process(NmeaPosition.Framed(payload, declared)) == Outcome([], true)
    ensures PyHexInt(declared).Some? ==>
      Process(NmeaPosition.Framed(payload, declared)) == Interpret(payload, PyHexInt(declared).value == XorAll(payload) as int)
  {
    var text := payload + "*" + declared;
    var line := NmeaPosition.Framed(payload, declared);
    assert line[0] == '$' && line[1..] == text;
    assert text[0] != '$' by {
      if payload == [] { assert text[0] == '*'; } else { assert text[0] == payload[0]; }
    }
    assert LStripped(text, Some("$")) == text;
    assert LStripped(line, Some("$")) == text;
    FindAt(text, '*', |payload|);
    assert text[..|payload|] == payload && text[|payload| + 1..] == declared;
  }

  /** The two hexadecimal digits a receiver writes read back as their byte. */
  lemma {:induction false} PyHexByte(b: bv8)
    ensures PyHexInt(NmeaPosition.HexByte(b)) == Some(b as int)
  {
    var s := NmeaPosition.HexByte(b);
    NmeaPosition.HexByteValue(b);
    assert SkipSpace(s) == s;
    assert SignLength(s, |s|) == 0;
    assert s[0..] == s;
    DigitRunEndAt(s, 0, 2, 2, 16);
    assert s[2..] == [];
  }

  /**
   * A sentence whose payload has a byte changed after its checksum was
   * computed: the C decoder leaves the position as it was, while the script
   * decodes the payload all the same, with status "[err]".
   */
  lemma {:induction false} BadChecksumStillDecoded(body: string, i: nat, c: char, pos: NmeaPosition.Position, deg0: real, min0: real)
    requires NmeaPosition.WellFormedPayload(body) && i < |body| && NmeaPosition.WellFormedPayload(body[i := c])
    requires ByteOf(c) != ByteOf(body[i])
    ensures var line := NmeaPosition.Framed(body[i := c], NmeaPosition.HexByte(XorAll(body)));
      && NmeaPosition.UpdatePosSpec(line, pos, deg0, min0) == (0, pos)
      && Process(line) == Interpret(body[i := c], false)
  {
    NmeaPosition.FlippedByteRejected(body, i, c, pos, deg0, min0);
    PyHexByte(XorAll(body));
    XorAllDetectsSingleChange(body, i, c);
    FramedProcess(body[i := c], NmeaPosition.HexByte(XorAll(body)));
  }

  /** A sentence with its own checksum is interpreted with status "[ok ]", as the C decoder accepts it. */
  lemma {:induction false} SentenceOk(body: string)
    requires NmeaPosition.WellFormedPayload(body)
    ensures Process(NmeaPosition.Sentence(body)) == Interpret(body, true)
  {
    PyHexByte(XorAll(body));
    FramedProcess(body, NmeaPosition.HexByte(XorAll(body)));
  }

  /** `float` of digits, a point and digits is their decimal value. */
  lemma {:induction false} PyFloatDecimal(ip: string, fp: string)
    requires ip != [] && AllDigits(ip, 10) && AllDigits(fp, 10)
    ensures PyFloat(ip + ['.'] + fp) == Some(NumberValue(ip, 10) as real + Fraction(fp))
  {
    var t := ip + ['.'] + fp;
    ScanRealDecimal(t, ip, fp, "", |t|);
    assert t + "" == t;
  }

  /** `float` of digits alone is their value. */
  lemma {:induction false} PyFloatWhole(dd: string)
    requires dd != [] && AllDigits(dd, 10)
    ensures PyFloat(dd) == Some(NumberValue(dd, 10) as real)
  {
    ScanRealWholeWidth(dd, "", |dd|);
    assert dd + "" == dd;
  }

  /** A "DDMM.MMMM" field reads as the degrees plus the minutes over 60. */
  lemma {:induction false} DegreesOfField(dd: string, ip: string, fp: string)
    requires dd != [] && AllDigits(dd, 10) && ip != [] && AllDigits(ip, 10) && AllDigits(fp, 10)
    ensures Degrees(dd + ip + ['.'] + fp, |dd|)
         == Some(NumberValue(dd, 10) as real + (NumberValue(ip, 10) as real + Fraction(fp)) / 60.0)
  {
    var t := dd + ip + ['.'] + fp;
    assert Slice(t, 0, |dd|) == dd;
    assert From(t, |dd|) == ip + ['.'] + fp;
    PyFloatWhole(dd);
    PyFloatDecimal(ip, fp);
  }

  /**
   * On a coordinate field with at most seven characters of minutes, the
   * script and the C decoder compute the same value before the hemisphere
   * sign.
   */
  lemma {:induction false} CoordinateAgrees(dd: string, ip: string, fp: string, deg: real, min: real)
    requires dd != [] && AllDigits(dd, 10) && ip != [] && AllDigits(ip, 10) && AllDigits(fp, 10)
    requires |ip| + 1 + |fp| <= 7
    ensures var c := NmeaPosition.ScanDegMin(dd + ip + ['.'] + fp, |dd|, deg, min);
      Degrees(dd + ip + ['.'] + fp, |dd|) == Some(c.0 + c.1 / 60.0)
  {
    NmeaPosition.ScanDegMinDecimal(dd, ip, fp, deg, min);
    DegreesOfField(dd, ip, fp);
  }

  /**
   * The two decoders differ on a ground speed with three digits before the
   * point: the script reads the whole number, the C decoder's `%4f` stops
   * after "DDD.", dropping the fraction.
   */
  lemma {:induction false} SpeedDecodersDiffer(ip: string, fp: string, x: real)
    requires |ip| == 3 && AllDigits(ip, 10) && AllDigits(fp, 10)
    ensures PyFloat(ip + ['.'] + fp) == Some(NumberValue(ip, 10) as real + Fraction(fp))
    ensures NmeaPosition.ScanRealOr(ip + ['.'] + fp, 4, x) == NumberValue(ip, 10) as real
  {
    PyFloatDecimal(ip, fp);
    NmeaPosition.GroundSpeedWidth(ip, fp, x);
  }

  /**
   * A GGA sentence with fix quality 1 and parsable coordinates prints the
   * status, the time, the satellite count, the latitude and the longitude,
   * each coordinate negated in the southern or western hemisphere.
   */
  lemma {:induction false} GgaPosition(fields: seq<string>, ok: bool, lat: real, long: real)
    requires |fields| >= 8 && forall k :: 0 <= k < |fields| ==> ',' !in fields[k]
    requires fields[0] == "GPGGA" && PyInt(fields[6]) == Some(1)
    requires Degrees(fields[2], 2) == Some(lat) && Degrees(fields[4], 3) == Some(long)
    ensures Interpret(Join(fields, ','), ok) == Outcome([
      Status(ok, Join(fields, ',')),
      FixTime(Slice(fields[1], 0, 2), Slice(fields[1], 2, 4), Slice(fields[1], 4, 6)),
      Satellites(fields[7]),
      Latitude(if fields[3] == "S" then -lat else lat),
      Longitude(if fields[5] == "W" then -long else long)], false)
  {
    JoinFields(fields, ',');
    assert GgaLines(fields).printed == [
      FixTime(Slice(fields[1], 0, 2), Slice(fields[1], 2, 4), Slice(fields[1], 4, 6)),
      Satellites(fields[7]),
      Latitude(if fields[3] == "S" then -lat else lat),
      Longitude(if fields[5] == "W" then -long else long)];
  }

  /** An RMC sentence with status "A" and parsable numbers prints the status, the speed in miles per hour and the heading. */
  lemma {:induction false} RmcMotion(fields: seq<string>, ok: bool, knots: real, heading: real)
    requires |fields| >= 9 && forall k :: 0 <= k < |fields| ==> ',' !in fields[k]
    requires fields[0] == "GPRMC" && fields[2] == "A"
    requires PyFloat(fields[7]) == Some(knots) && PyFloat(fields[8]) == Some(heading)
    ensures Interpret(Join(fields, ','), ok) == Outcome([
      Status(ok, Join(fields, ',')), GroundSpeed(knots * MphPerKnot), Heading(heading)], false)
  {
    JoinFields(fields, ',');
  }

  /** A GGA sentence without fix quality 1, or an RMC sentence without status "A", prints the status and "Invalid fix.". */
  lemma {:induction false} NoFix(fields: seq<string>, ok: bool)
    requires |fields| >= 7 && forall k :: 0 <= k < |fields| ==> ',' !in fields[k]
    requires (fields[0] == "GPGGA" && PyInt(fields[6]).Some? && PyInt(fields[6]).value != 1)
          || (fields[0] == "GPRMC" && fields[2] != "A")
    ensures Interpret(Join(fields, ','), ok) == Outcome([Status(ok, Join(fields, ',')), InvalidFix], false)
  {
    JoinFields(fields, ',');
  }
}
