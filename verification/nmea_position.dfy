/**
 * `nmea_update_pos` of rpi/util.c: one NMEA sentence, read from the line
 * buffer, updates the position record. The leading '$' is stripped, the
 * sentence is cut at '*' into the payload (at most 127 characters, the
 * 128-byte `gps_data` buffer) and the declared checksum (at most 3
 * characters, the 4-byte `checksum_str` buffer); a declared checksum that
 * differs from the XOR of the payload leaves the record as it was.
 * Otherwise GGA and RMC sentences are decoded field by field through the
 * 16-byte `data_field` buffer, which keeps its previous text whenever a
 * field is missing.
 *
 * Numbers are read as exact reals; `float` rounding is not modelled.
 */
module NmeaPosition {
  import opened Wrappers
  import opened Bytes
  import opened CText
  import opened Util

  /** `struct position_t`; the two time stamps are the C strings held in their 16-byte arrays. */
  datatype Position = Position(
    ggaRmcSync: int,
    ggaTime: string,
    rmcTime: string,
    hour: int,
    min: int,
    sec: real,
    satCount: int,
    latitude: real,
    longitude: real,
    groundSpd: real,
    heading: real)

  // Buffer sizes of nmea_update_pos.
  const GpsDataSize: nat := 128
  const ChecksumSize: nat := 4
  const DataFieldSize: nat := 16

  // Field indices of rpi/inc/util.h.
  const FieldMsg := 0
  const FieldChecksum := 1
  const FieldMsgId := 0
  const GgaUtc := 1
  const GgaLat := 2
  const GgaNs := 3
  const GgaLong := 4
  const GgaEw := 5
  const GgaFixOk := 6
  const GgaSat := 7
  const RmcUtc := 1
  const RmcStatus := 2
  const RmcGndSpd := 7
  const RmcCourse := 8

  /** Knots to miles per hour, as the source writes it. */
  const KnotsToMph: real := 1.150779

  // ---------------------------------------------------------------------
  // The sentence frame

  /** The text after `lstrip(str, "$")`. */
  function Stripped(line: string): string
  {
    LStripped(line, Some("$"))
  }

  /** The payload: what `gps_data` holds, the text before the first '*' cut to 127 characters. */
  function Payload(text: string): string
  {
    Refill("", GetField(text, '*', FieldMsg, GpsDataSize))
  }

  /** The declared checksum: what `checksum_str` holds, the text after the first '*' cut to 3 characters ("" when there is no '*'). */
  function Declared(text: string): string
  {
    Refill("", GetField(text, '*', FieldChecksum, ChecksumSize))
  }

  /** The checksum test of nmea_update_pos: the declared value, read as hexadecimal, is the XOR of the payload. */
  predicate ChecksumMatches(text: string)
  {
    StrToL16(Declared(text)) == XorAll(Payload(text)) as int
  }

  // ---------------------------------------------------------------------
  // Field decoding

  /** The text of `data_field` after `nmea_get_field(body, ',', k, data_field, 16)`, given its text before. */
  function NextField(body: string, previous: string, k: int): string
  {
    Refill(previous, GetField(body, ',', k, DataFieldSize))
  }

  /** The first byte of a buffer holding the C string `t`. */
  function FirstByte(t: string): char
  {
    if t == [] then '\0' else t[0]
  }

  /** `sscanf(t, "%2d%2d%6f", &hour, &min, &sec)`: each conversion that succeeds assigns, the first that fails ends the scan. */
  function ScanTime(t: string, hour: int, min: int, sec: real): (int, int, real)
  {
    match ScanInt(t, 2)
    case None => (hour, min, sec)
    case Some(h) =>
      match ScanInt(h.rest, 2)
      case None => (h.value, min, sec)
      case Some(m) =>
        match ScanReal(m.rest, 6)
        case None => (h.value, m.value, sec)
        case Some(s) => (h.value, m.value, s.value)
  }

  /** `sscanf(t, "%<degWidth>f%7f", &deg, &min)`, with the same rule. */
  function ScanDegMin(t: string, degWidth: nat, deg: real, min: real): (real, real)
  {
    match ScanReal(t, degWidth)
    case None => (deg, min)
    case Some(d) =>
      match ScanReal(d.rest, 7)
      case None => (d.value, min)
      case Some(m) => (d.value, m.value)
  }

  /** `sscanf(t, "%<width>f", &x)`: the value read, or `x` unchanged. */
  function ScanRealOr(t: string, width: nat, x: real): real
  {
    match ScanReal(t, width)
    case None => x
    case Some(r) => r.value
  }

  /**
   * The GGA branch, entered with "GPGGA" in `data_field`: with fix flag 1 it
   * stores the time stamp, the clock, the latitude, the longitude and the
   * satellite count and answers 1; otherwise it answers 0. `deg0` and
   * `min0` stand for the uninitialised locals `deg` and `min`, which keep
   * their values from one `sscanf` to the next.
   */
  function Gga(body: string, pos: Position, deg0: real, min0: real): (int, Position)
  {
    var fix := NextField(body, "GPGGA", GgaFixOk);
    if AtoI(fix) != 1 then (0, pos)
    else
      var utc := NextField(body, fix, GgaUtc);
      var (hour, min, sec) := ScanTime(utc, pos.hour, pos.min, pos.sec);
      var (latitude, deg1, min1, ns) := Coordinate(body, utc, GgaLat, 2, 'S', deg0, min0);
      var (longitude, deg2, min2, ew) := Coordinate(body, ns, GgaLong, 3, 'W', deg1, min1);
      var sat := NextField(body, ew, GgaSat);
      (1, pos.(ggaTime := utc, hour := hour, min := min, sec := sec,
               latitude := latitude, longitude := longitude, satCount := AtoI(sat)))
  }

  /**
   * A coordinate of a GGA sentence: field `k` read with `%<degWidth>f%7f`
   * into degrees and minutes, then negated when field `k + 1` (the
   * hemisphere) starts with `negative`. The result also gives the degrees
   * and minutes the locals now hold and the text left in `data_field`.
   */
  function Coordinate(body: string, previous: string, k: int, degWidth: nat, negative: char, deg: real, min: real)
    : (real, real, real, string)
  {
    var t := NextField(body, previous, k);
    var (d, m) := ScanDegMin(t, degWidth, deg, min);
    var h := NextField(body, t, k + 1);
    var v := d + m / 60.0;
    (if FirstByte(h) == negative then v * -1.0 else v, d, m, h)
  }

  /**
   * The RMC branch, entered with "GPRMC" in `data_field`: with status "A"
   * it stores the time stamp, the ground speed (read with `%4f`, then
   * scaled to miles per hour) and the course, and answers 1; otherwise 0.
   */
  function Rmc(body: string, pos: Position): (int, Position)
  {
    var status := NextField(body, "GPRMC", RmcStatus);
    if status != "A" then (0, pos)
    else
      var utc := NextField(body, status, RmcUtc);
      var spd := NextField(body, utc, RmcGndSpd);
      var crs := NextField(body, spd, RmcCourse);
      (1, pos.(rmcTime := utc,
               groundSpd := ScanRealOr(spd, 4, pos.groundSpd) * KnotsToMph,
               heading := ScanRealOr(crs, 6, pos.heading)))
  }

  /** Decoding a payload whose checksum matched: the sentence branch, then the sync flag. */
  function Decode(body: string, pos: Position, deg0: real, min0: real): (int, Position)
  {
    var id := NextField(body, "", FieldMsgId);
    var (valid, p) :=
      if id == "GPGGA" then Gga(body, pos, deg0, min0)
      else if id == "GPRMC" then Rmc(body, pos)
      else (0, pos);
    (valid, p.(ggaRmcSync := if valid == 1 && p.ggaTime == p.rmcTime then 1 else 0))
  }

  /** What `nmea_update_pos` answers and leaves in the record, for the C string `line` in the line buffer. */
  function UpdatePosSpec(line: string, pos: Position, deg0: real, min0: real): (int, Position)
  {
    var text := Stripped(line);
    if !ChecksumMatches(text) then (0, pos) else Decode(Payload(text), pos, deg0, min0)
  }

  // ---------------------------------------------------------------------
  // The procedure

  /**
   * `nmea_update_pos(str, pos)`. The record is passed in and returned;
   * the line buffer is stripped of its leading '$' in place.
   */
  method UpdatePos(str: array<char>, pos: Position, deg0: real, min0: real) returns (valid: int, p: Position)
    requires Terminated(str)
    modifies str
    ensures CStr(str[..]) == Stripped(old(CStr(str[..])))
    ensures (valid, p) == UpdatePosSpec(old(CStr(str[..])), pos, deg0, min0)
  {
    var _ := LStrip(str, Some("$"));
    var gpsData := new char[GpsDataSize](_ => '\0');
    var checksumStr := new char[ChecksumSize](_ => '\0');
    var dataField := new char[DataFieldSize](_ => '\0');
    CStrHasNoNul(str[..]);
    SplitSentence(CStr(str[..]), gpsData, checksumStr);
    var sum := NmeaChecksum(gpsData);
    if StrToL16(CStr(checksumStr[..])) != sum {
      return 0, pos;
    }
    CStrHasNoNul(gpsData[..]);
    EmptyBuffer(dataField);
    valid, p := DecodePayload(CStr(gpsData[..]), dataField, pos, deg0, min0);
  }

  /** The two `nmea_get_field` calls that cut the sentence at '*' into the zeroed `gps_data` and `checksum_str`. */
  method SplitSentence(text: string, gpsData: array<char>, checksumStr: array<char>)
    requires '\0' !in text && gpsData.Length == GpsDataSize && checksumStr.Length == ChecksumSize
    requires forall i :: 0 <= i < gpsData.Length ==> gpsData[i] == '\0'
    requires forall i :: 0 <= i < checksumStr.Length ==> checksumStr[i] == '\0'
    modifies gpsData, checksumStr
    ensures Terminated(gpsData) && CStr(gpsData[..]) == Payload(text)
    ensures CStr(checksumStr[..]) == Declared(text)
  {
    EmptyBuffer(gpsData);
    EmptyBuffer(checksumStr);
    var _ := NmeaGetField(Some(text), '*', FieldMsg, gpsData, GpsDataSize);
    var _ := NmeaGetField(Some(text), '*', FieldChecksum, checksumStr, ChecksumSize);
  }

  /** A buffer of NULs holds the empty C string. */
  lemma {:induction false} EmptyBuffer(a: array<char>)
    requires a.Length > 0 && forall i :: 0 <= i < a.Length ==> a[i] == '\0'
    ensures Terminated(a) && CStr(a[..]) == ""
  {
    assert a[..][0] == '\0';
  }

  /** A C string holds no NUL. */
  lemma {:induction false} CStrHasNoNul(s: seq<char>)
    ensures '\0' !in CStr(s)
  {
    FindSpec(s, '\0');
  }

  /** The text of a buffer holding the C string `t` starts with `FirstByte(t)`. */
  lemma {:induction false} FirstByteOf(a: array<char>)
    requires Terminated(a)
    ensures a[0] == FirstByte(CStr(a[..]))
  {
    FindSpec(a[..], '\0');
  }

  /** `nmea_get_field(body, ',', k, data_field, 16)`, seen through the C string of `data_field`. */
  method FetchField(body: string, k: int, dataField: array<char>)
    requires '\0' !in body && dataField.Length == DataFieldSize && Terminated(dataField)
    modifies dataField
    ensures Terminated(dataField)
    ensures CStr(dataField[..]) == NextField(body, old(CStr(dataField[..])), k)
  {
    var _ := NmeaGetField(Some(body), ',', k, dataField, DataFieldSize);
  }

  /** The part of nmea_update_pos after the checksum test. */
  method DecodePayload(body: string, dataField: array<char>, pos: Position, deg0: real, min0: real)
    returns (valid: int, p: Position)
    requires '\0' !in body && dataField.Length == DataFieldSize && Terminated(dataField)
    requires CStr(dataField[..]) == ""
    modifies dataField
    ensures (valid, p) == Decode(body, pos, deg0, min0)
  {
    FetchField(body, FieldMsgId, dataField);
    var id := CStr(dataField[..]);
    valid, p := 0, pos;
    if id == "GPGGA" {
      valid, p := DecodeGga(body, dataField, pos, deg0, min0);
    } else if id == "GPRMC" {
      valid, p := DecodeRmc(body, dataField, pos);
    }
    if valid == 1 && p.ggaTime == p.rmcTime {
      p := p.(ggaRmcSync := 1);
    } else {
      p := p.(ggaRmcSync := 0);
    }
  }

  /** The GGA branch of nmea_update_pos. */
  method DecodeGga(body: string, dataField: array<char>, pos: Position, deg0: real, min0: real)
    returns (valid: int, p: Position)
    requires '\0' !in body && dataField.Length == DataFieldSize && Terminated(dataField)
    requires CStr(dataField[..]) == "GPGGA"
    modifies dataField
    ensures (valid, p) == Gga(body, pos, deg0, min0)
  {
    p := pos;
    FetchField(body, GgaFixOk, dataField);
    if AtoI(CStr(dataField[..])) != 1 {
      return 0, p;
    }
    FetchField(body, GgaUtc, dataField);
    p := p.(ggaTime := CStr(dataField[..]));
    var (hour, min, sec) := ScanTime(CStr(dataField[..]), p.hour, p.min, p.sec);
    p := p.(hour := hour, min := min, sec := sec);
    var latitude, deg, mins := DecodeCoordinate(body, dataField, GgaLat, 2, 'S', deg0, min0);
    p := p.(latitude := latitude);
    var longitude, _, _ := DecodeCoordinate(body, dataField, GgaLong, 3, 'W', deg, mins);
    p := p.(longitude := longitude);
    FetchField(body, GgaSat, dataField);
    p := p.(satCount := AtoI(CStr(dataField[..])));
    valid := 1;
  }

  /** The `sscanf` of a coordinate field and the test of its hemisphere field. */
  method DecodeCoordinate(body: string, dataField: array<char>, k: int, degWidth: nat, negative: char, deg0: real, min0: real)
    returns (value: real, deg: real, min: real)
    requires '\0' !in body && dataField.Length == DataFieldSize && Terminated(dataField)
    modifies dataField
    ensures Terminated(dataField)
    ensures (value, deg, min, CStr(dataField[..])) == Coordinate(body, old(CStr(dataField[..])), k, degWidth, negative, deg0, min0)
  {
    FetchField(body, k, dataField);
    var degMin := ScanDegMin(CStr(dataField[..]), degWidth, deg0, min0);
    deg, min := degMin.0, degMin.1;
    value := deg + min / 60.0;
    FetchField(body, k + 1, dataField);
    FirstByteOf(dataField);
    if dataField[0] == negative {
      value := value * -1.0;
    }
  }

  /** The RMC branch of nmea_update_pos. */
  method DecodeRmc(body: string, dataField: array<char>, pos: Position)
    returns (valid: int, p: Position)
    requires '\0' !in body && dataField.Length == DataFieldSize && Terminated(dataField)
    requires CStr(dataField[..]) == "GPRMC"
    modifies dataField
    ensures (valid, p) == Rmc(body, pos)
  {
    p := pos;
    FetchField(body, RmcStatus, dataField);
    if CStr(dataField[..]) != "A" {
      return 0, p;
    }
    FetchField(body, RmcUtc, dataField);
    p := p.(rmcTime := CStr(dataField[..]));
    FetchField(body, RmcGndSpd, dataField);
    p := p.(groundSpd := ScanRealOr(CStr(dataField[..]), 4, p.groundSpd));
    p := p.(groundSpd := p.groundSpd * KnotsToMph);
    FetchField(body, RmcCourse, dataField);
    p := p.(heading := ScanRealOr(CStr(dataField[..]), 6, p.heading));
    valid := 1;
  }

  // ---------------------------------------------------------------------
  // Properties

  /** The GGA branch is taken and finds a fix. */
  predicate GgaFixed(body: string)
  {
    NextField(body, "", FieldMsgId) == "GPGGA" && AtoI(NextField(body, "GPGGA", GgaFixOk)) == 1
  }

  /** The RMC branch is taken and finds status "A". */
  predicate RmcActive(body: string)
  {
    NextField(body, "", FieldMsgId) == "GPRMC" && NextField(body, "GPRMC", RmcStatus) == "A"
  }

  /** A checksum mismatch answers 0 and leaves the whole record, sync flag included, as it was. */
  lemma {:induction false} ChecksumMismatchKeepsPosition(line: string, pos: Position, deg0: real, min0: real)
    requires !ChecksumMatches(Stripped(line))
    ensures UpdatePosSpec(line, pos, deg0, min0) == (0, pos)
  {
  }

  /** The answer is 1 exactly for a matching checksum and a GGA sentence with a fix or an RMC sentence with status "A"; otherwise 0. */
  lemma {:induction false} UpdatePosAnswer(line: string, pos: Position, deg0: real, min0: real)
    ensures var (valid, _) := UpdatePosSpec(line, pos, deg0, min0);
      && (valid == 0 || valid == 1)
      && (valid == 1 <==> ChecksumMatches(Stripped(line)) && (GgaFixed(Payload(Stripped(line))) || RmcActive(Payload(Stripped(line)))))
  {
    DecodeAnswer(Payload(Stripped(line)), pos, deg0, min0);
  }

  /** After the checksum test, the answer is 1 exactly for a GGA sentence with a fix or an RMC sentence with status "A". */
  lemma {:induction false} DecodeAnswer(body: string, pos: Position, deg0: real, min0: real)
    ensures var (valid, _) := Decode(body, pos, deg0, min0);
      (valid == 0 || valid == 1) && (valid == 1 <==> GgaFixed(body) || RmcActive(body))
  {
    var id := NextField(body, "", FieldMsgId);
    if id == "GPGGA" {
      GgaAnswer(body, pos, deg0, min0);
    } else if id == "GPRMC" {
      RmcAnswer(body, pos);
    }
  }

  /** The GGA branch answers 1 exactly when the fix flag reads as 1. */
  lemma {:induction false} GgaAnswer(body: string, pos: Position, deg0: real, min0: real)
    ensures Gga(body, pos, deg0, min0).0 == if AtoI(NextField(body, "GPGGA", GgaFixOk)) == 1 then 1 else 0
  {
  }

  /** The RMC branch answers 1 exactly when the status is "A". */
  lemma {:induction false} RmcAnswer(body: string, pos: Position)
    ensures Rmc(body, pos).0 == if NextField(body, "GPRMC", RmcStatus) == "A" then 1 else 0
  {
  }

  /** After a matching checksum the sync flag is 1 exactly when the answer is 1 and the two time stamps agree. */
  lemma {:induction false} SyncFlag(line: string, pos: Position, deg0: real, min0: real)
    requires ChecksumMatches(Stripped(line))
    ensures var (valid, p) := UpdatePosSpec(line, pos, deg0, min0);
      (p.ggaRmcSync == 1 <==> valid == 1 && p.ggaTime == p.rmcTime) && (p.ggaRmcSync == 0 || p.ggaRmcSync == 1)
  {
  }

  /** A GGA sentence with a fix changes the GGA fields and the sync flag only. */
  lemma {:induction false} GgaTouchesOnly(body: string, pos: Position, deg0: real, min0: real)
    requires GgaFixed(body)
    ensures var (valid, p) := Decode(body, pos, deg0, min0);
      valid == 1 && p.rmcTime == pos.rmcTime && p.groundSpd == pos.groundSpd && p.heading == pos.heading
  {
  }

  /** An RMC sentence with status "A" changes the RMC fields and the sync flag only. */
  lemma {:induction false} RmcTouchesOnly(body: string, pos: Position, deg0: real, min0: real)
    requires RmcActive(body)
    ensures var (valid, p) := Decode(body, pos, deg0, min0);
      && valid == 1 && p.ggaTime == pos.ggaTime && p.hour == pos.hour && p.min == pos.min && p.sec == pos.sec
      && p.satCount == pos.satCount && p.latitude == pos.latitude && p.longitude == pos.longitude
  {
  }

  /** Any other sentence, or a GGA without fix or an RMC without status "A", only clears the sync flag. */
  lemma {:induction false} OtherSentencesClearSync(body: string, pos: Position, deg0: real, min0: real)
    requires !GgaFixed(body) && !RmcActive(body)
    ensures Decode(body, pos, deg0, min0) == (0, pos.(ggaRmcSync := 0))
  {
  }

  // ---------------------------------------------------------------------
  // Sentences as a receiver sends them

  /** An upper-case hexadecimal digit. */
  function HexDigitChar(n: nat): (c: char)
    requires n < 16
    ensures IsHexDigit(c) && DigitValue(c) == n && c != 'x' && c != 'X' && !IsSpace(c) && c != '+' && c != '-'
  {
    if n < 10 then ('0' as int + n) as char else ('A' as int + n - 10) as char
  }

  /** The two hexadecimal digits a receiver writes after '*'. */
  function HexByte(b: bv8): (s: string)
    ensures |s| == 2
  {
    [HexDigitChar(b as nat / 16), HexDigitChar(b as nat % 16)]
  }

  /** `strtol(.., 16)` reads the two digits back as the byte. */
  lemma {:induction false} HexByteValue(b: bv8)
    ensures StrToL16(HexByte(b)) == b as int
  {
    var s := HexByte(b);
    var n := b as nat;
    assert n / 16 * 16 + n % 16 == n;
    assert SkipSpace(s) == s;
    assert SignLength(s, |s|) == 0;
    assert s[0..] == s;
    DigitRunEndAt(s, 0, 2, 2, 16);
    assert s[..1] == [s[0]] && s[0..2] == s;
    assert s[..|s| - 1] == [s[0]] && [s[0]][..0] == [];
    assert NumberValue([s[0]], 16) == DigitValue(s[0]);
    assert NumberValue(s, 16) == DigitValue(s[0]) * 16 + DigitValue(s[1]);
  }

  /** A payload a sentence can carry whole: no '*', no NUL, short enough for `gps_data`, not starting with '$'. */
  predicate WellFormedPayload(body: string)
  {
    '*' !in body && '\0' !in body && |body| < GpsDataSize && (body == [] || body[0] != '$')
  }

  /** The line "$<body>*<declared>". */
  function Framed(body: string, declared: string): string
  {
    "$" + body + "*" + declared
  }

  /** The sentence a receiver sends for a payload: the payload framed with its own checksum. */
  function Sentence(body: string): string
  {
    Framed(body, HexByte(XorAll(body)))
  }

  /** Stripping and cutting a framed line gives back its payload and its declared checksum. */
  lemma {:induction false} FramedParts(body: string, declared: string)
    requires WellFormedPayload(body) && '*' !in declared && |declared| < ChecksumSize
    ensures Payload(Stripped(Framed(body, declared))) == body
    ensures Declared(Stripped(Framed(body, declared))) == declared
  {
    var text := body + "*" + declared;
    var line := Framed(body, declared);
    assert line[0] == '$' && line[1..] == text;
    assert text[0] != '$' by {
      if body == [] { assert text[0] == '*'; } else { assert text[0] == body[0]; }
    }
    assert !Strippable(text[0], Some("$"));
    assert LStripped(text, Some("$")) == text;
    assert Stripped(line) == text;
    var fs := [body, declared];
    assert Join(fs, '*') == text;
    JoinFields(fs, '*');
    assert body[..|body|] == body && declared[..|declared|] == declared;
  }

  /** A sentence whose checksum is its own passes the test and is decoded from its payload. */
  lemma {:induction false} SentenceAccepted(body: string, pos: Position, deg0: real, min0: real)
    requires WellFormedPayload(body)
    ensures UpdatePosSpec(Sentence(body), pos, deg0, min0) == Decode(body, pos, deg0, min0)
  {
    HexByteValue(XorAll(body));
    FramedParts(body, HexByte(XorAll(body)));
  }

  /** A sentence with one payload byte changed in transit is rejected, and the record is left as it was. */
  lemma {:induction false} FlippedByteRejected(body: string, i: nat, c: char, pos: Position, deg0: real, min0: real)
    requires WellFormedPayload(body) && i < |body| && WellFormedPayload(body[i := c])
    requires ByteOf(c) != ByteOf(body[i])
    ensures UpdatePosSpec(Framed(body[i := c], HexByte(XorAll(body))), pos, deg0, min0) == (0, pos)
  {
    var line := Framed(body[i := c], HexByte(XorAll(body)));
    FlippedByteFailsChecksum(body, i, c);
    ChecksumMismatchKeepsPosition(line, pos, deg0, min0);
  }

  /** The checksum test fails on a payload with one byte changed. */
  lemma {:induction false} FlippedByteFailsChecksum(body: string, i: nat, c: char)
    requires WellFormedPayload(body) && i < |body| && WellFormedPayload(body[i := c])
    requires ByteOf(c) != ByteOf(body[i])
    ensures !ChecksumMatches(Stripped(Framed(body[i := c], HexByte(XorAll(body)))))
  {
    FramedChecksum(body[i := c], HexByte(XorAll(body)));
    StaleChecksumDiffers(body, i, c);
  }

  /** The digits of the original checksum do not read as the XOR of the changed payload. */
  lemma {:induction false} StaleChecksumDiffers(body: string, i: nat, c: char)
    requires i < |body| && ByteOf(c) != ByteOf(body[i])
    ensures StrToL16(HexByte(XorAll(body))) != XorAll(body[i := c]) as int
  {
    HexByteValue(XorAll(body));
    XorAllDetectsSingleChange(body, i, c);
  }

  /** A framed line passes the checksum test exactly when its declared digits read as the XOR of its payload. */
  lemma {:induction false} FramedChecksum(body: string, declared: string)
    requires WellFormedPayload(body) && '*' !in declared && |declared| < ChecksumSize
    ensures ChecksumMatches(Stripped(Framed(body, declared))) <==> StrToL16(declared) == XorAll(body) as int
  {
    FramedParts(body, declared);
  }

  /** A "DDMM.MMMM" coordinate field reads as whole degrees and decimal minutes. */
  lemma {:induction false} ScanDegMinDecimal(dd: string, ip: string, fp: string, deg: real, min: real)
    requires dd != [] && AllDigits(dd, 10) && ip != [] && AllDigits(ip, 10) && AllDigits(fp, 10)
    requires |ip| + 1 + |fp| <= 7
    ensures ScanDegMin(dd + ip + ['.'] + fp, |dd|, deg, min)
         == (NumberValue(dd, 10) as real, NumberValue(ip, 10) as real + Fraction(fp))
  {
    var mm := ip + ['.'] + fp;
    assert dd + ip + ['.'] + fp == dd + mm;
    ScanRealWholeWidth(dd, mm, |dd|);
    ScanRealDecimal(mm, ip, fp, "", 7);
  }

  /**
   * The ground speed is read with `%4f`: a speed written with three digits
   * before the point, as in "022.4", loses its fraction ("022.4" knots is
   * read as 22).
   */
  lemma {:induction false} GroundSpeedWidth(ip: string, fp: string, x: real)
    requires |ip| == 3 && AllDigits(ip, 10) && AllDigits(fp, 10)
    ensures ScanRealOr(ip + ['.'] + fp, 4, x) == NumberValue(ip, 10) as real
  {
    ScanRealDecimal(ip + ['.'] + fp, ip, "", fp, 4);
    assert Fraction("") == 0.0;
  }
}
