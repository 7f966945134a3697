/**
 * One loop iteration of the two GPS sessions of rpi/nav.c, `gps_data`
 * (with and without the logger) and `gps_map_nav`, as a step from session
 * state to session state that emits what the iteration shows on screen or
 * writes to the logger file as `Notice`s. The printf formatting of the
 * numbers is not modelled; a notice carries the position it shows.
 */
module NavSession {
  import opened Wrappers
  import opened Arith
  import opened Streams
  import opened NmeaPosition
  import opened NavMenu
  import opened NavPatch

  /**
   * Invalid sentences tolerated before the advisory appears: six sentences
   * arrive every second, so 60 is ten seconds without a fix.
   */
  const FixPatience := 60

  /** What one iteration puts on the screen, or in the logger file. */
  datatype Notice =
    | HeartBeat(beat: char)
    | UartError
    | FixShown(fix: Position)
    | AlertCleared
    | Logged(record: int, fix: Position)
    | FixNotValid
    | NoMapForLocation
    | LoadError
    | Marker
    | ExitHint
    | LoggerHeader
    | LoggerUnavailable
    | NoMaps

  /**
   * The sentence decoder the sessions call on every line read: answer and
   * updated position. The navigator uses `NmeaUpdate`; the session steps
   * hold for any decoder.
   */
  type Decoder = (string, Position) -> (int, Position)

  /**
   * `nmea_update_pos` on a line read from the serial port. Its two
   * uninitialised locals `deg` and `min` are taken as 0.
   */
  const NmeaUpdate: Decoder := (text: string, pos: Position) => UpdatePosSpec(text, pos, 0.0, 0.0)

  /** The tick delivered a line that `nmea_update_pos` accepts as a valid fix. */
  predicate ValidFix(update: Decoder, tick: Tick, pos: Position)
  {
    tick.read.Line? && update(tick.read.text, pos).0 == 1
  }

  /** The tick delivered a line that gave no valid fix. */
  predicate NoFix(update: Decoder, tick: Tick, pos: Position)
  {
    tick.read.Line? && update(tick.read.text, pos).0 != 1
  }

  function Toggle(beat: char): char
  {
    if beat == '*' then ' ' else '*'
  }

  // ---------------------------------------------------------------------
  // gps_data

  /** The locals of `gps_data` that outlive an iteration, and the global position. */
  datatype DataState = DataState(pos: Position, invalid: int, heartBeat: char, logged: int)

  /**
   * The logging gate of rpi/nav.c:1249: a record is written for a valid
   * fix only in logger mode, when the GGA and RMC sentences came from the
   * same batch, and when the logger file is open.
   */
  predicate Logs(update: Decoder, loggerOn: bool, fdOpen: bool, s: DataState, tick: Tick)
  {
    ValidFix(update, tick, s.pos) && loggerOn && update(tick.read.text, s.pos).1.ggaRmcSync != 0 && fdOpen
  }

  /** The record numbers of the Logged notices, in order. */
  function Records(ns: seq<Notice>): seq<int>
  {
    if ns == [] then []
    else Records(ns[..|ns| - 1]) + (if ns[|ns| - 1].Logged? then [ns[|ns| - 1].record] else [])
  }

  lemma {:induction false} NoRecords(ns: seq<Notice>)
    requires forall i :: 0 <= i < |ns| ==> !ns[i].Logged?
    ensures Records(ns) == []
    decreases |ns|
  {
    if ns != [] {
      NoRecords(ns[..|ns| - 1]);
    }
  }

  /**
   * One iteration of the loop of `gps_data` (rpi/nav.c:1204-1272) after a
   * button other than LEFT: no data skips the iteration, a read error is
   * reported, and a line updates the position. A valid fix resets the
   * invalid-fix counter, is shown, clears the advisory and, through the
   * logging gate, writes one record numbered by `logged_points`; any other
   * line counts one more invalid fix, and the advisory is shown while the
   * count exceeds FixPatience.
   */
  function DataStep(update: Decoder, loggerOn: bool, fdOpen: bool, s: DataState, tick: Tick): (DataState, seq<Notice>)
  {
    match tick.read
    case NoData => (s, [])
    case ReadError => (s, [UartError])
    case Line(text) =>
      var fix := update(text, s.pos);
      var p := fix.1;
      var beat := Toggle(s.heartBeat);
      if fix.0 == 1 then
        var shown := [HeartBeat(s.heartBeat), FixShown(p), AlertCleared];
        if loggerOn && p.ggaRmcSync != 0 && fdOpen then
          (DataState(p, 0, beat, s.logged + 1), shown + [Logged(s.logged, p)])
        else
          (DataState(p, 0, beat, s.logged), shown)
      else
        var n := s.invalid + 1;
        (DataState(p, n, beat, s.logged), if n > FixPatience then [HeartBeat(s.heartBeat), FixNotValid] else [HeartBeat(s.heartBeat)])
  }

  /**
   * What one iteration of `gps_data` promises: no data or a read error
   * leave the state alone; a line toggles the heart beat and updates the
   * position; a valid fix resets the counter and is shown, any other line
   * counts one more; the advisory appears exactly when the count exceeds
   * FixPatience; and exactly the iterations through the logging gate
   * write one record, numbered by `logged_points`, and advance it.
   */
  lemma {:induction false} DataStepFacts(update: Decoder, loggerOn: bool, fdOpen: bool, s: DataState, tick: Tick)
    ensures var r := DataStep(update, loggerOn, fdOpen, s, tick);
      && (!tick.read.Line? ==> r.0 == s)
      && (tick.read.Line? ==> r.0.pos == update(tick.read.text, s.pos).1 && r.0.heartBeat == Toggle(s.heartBeat))
      && (ValidFix(update, tick, s.pos) ==> r.0.invalid == 0 && FixShown(r.0.pos) in r.1)
      && (NoFix(update, tick, s.pos) ==> r.0.invalid == s.invalid + 1)
      && (FixNotValid in r.1 <==> NoFix(update, tick, s.pos) && r.0.invalid > FixPatience)
      && r.0.logged == s.logged + (if Logs(update, loggerOn, fdOpen, s, tick) then 1 else 0)
      && Records(r.1) == if Logs(update, loggerOn, fdOpen, s, tick) then [s.logged] else []
  {
    if tick.read.Line? {
      var fix := update(tick.read.text, s.pos);
      var p := fix.1;
      if fix.0 == 1 {
        var shown := [HeartBeat(s.heartBeat), FixShown(p), AlertCleared];
        assert FixNotValid !in shown;
        NoRecords(shown);
        if loggerOn && p.ggaRmcSync != 0 && fdOpen {
          var logged := shown + [Logged(s.logged, p)];
          assert logged == [HeartBeat(s.heartBeat), FixShown(p), AlertCleared, Logged(s.logged, p)];
          assert Records(logged) == Records(shown) + [s.logged];
        }
      } else {
        var n := s.invalid + 1;
        var ns := if n > FixPatience then [HeartBeat(s.heartBeat), FixNotValid] else [HeartBeat(s.heartBeat)];
        NoRecords(ns);
      }
    } else if tick.read.ReadError? {
      NoRecords([UartError]);
    } else {
      NoRecords([]);
    }
  }

  /** The iterations of `gps_data` over `ticks`, none of them a LEFT press. */
  function DataRun(update: Decoder, loggerOn: bool, fdOpen: bool, s: DataState, ticks: seq<Tick>): (DataState, seq<Notice>)
  {
    Run((u: DataState, t: Tick) => DataStep(update, loggerOn, fdOpen, u, t), s, ticks)
  }

  lemma {:induction false} DataRunSnoc(update: Decoder, loggerOn: bool, fdOpen: bool, s: DataState, ticks: seq<Tick>, t: Tick)
    ensures DataRun(update, loggerOn, fdOpen, s, ticks + [t]).0 == DataStep(update, loggerOn, fdOpen, DataRun(update, loggerOn, fdOpen, s, ticks).0, t).0
    ensures DataRun(update, loggerOn, fdOpen, s, ticks + [t]).1
      == DataRun(update, loggerOn, fdOpen, s, ticks).1 + DataStep(update, loggerOn, fdOpen, DataRun(update, loggerOn, fdOpen, s, ticks).0, t).1
  {
    RunSnoc((u: DataState, t: Tick) => DataStep(update, loggerOn, fdOpen, u, t), s, ticks, t);
  }

  /** The integers from a up to, not including, b. */
  function Range(a: int, b: int): (r: seq<int>)
    ensures |r| == if b <= a then 0 else b - a
    decreases b - a
  {
    if b <= a then [] else Range(a, b - 1) + [b - 1]
  }

  lemma {:induction false} RecordsAppend(a: seq<Notice>, b: seq<Notice>)
    ensures Records(a + b) == Records(a) + Records(b)
    decreases |b|
  {
    if b == [] {
      assert a + b == a;
    } else {
      assert (a + b)[..|a + b| - 1] == a + b[..|b| - 1];
      RecordsAppend(a, b[..|b| - 1]);
    }
  }

  /**
   * Over a whole session the logger file receives records numbered
   * consecutively from the starting `logged_points`, and `logged_points`
   * ends one past the last of them.
   */
  lemma {:induction false} RecordsNumbered(update: Decoder, loggerOn: bool, fdOpen: bool, s: DataState, ticks: seq<Tick>)
    ensures DataRun(update, loggerOn, fdOpen, s, ticks).0.logged >= s.logged
    ensures Records(DataRun(update, loggerOn, fdOpen, s, ticks).1) == Range(s.logged, DataRun(update, loggerOn, fdOpen, s, ticks).0.logged)
    decreases |ticks|
  {
    if ticks != [] {
      var before := ticks[..|ticks| - 1];
      var t := ticks[|ticks| - 1];
      assert ticks == before + [t];
      RecordsNumbered(update, loggerOn, fdOpen, s, before);
      DataRunSnoc(update, loggerOn, fdOpen, s, before, t);
      var run := DataRun(update, loggerOn, fdOpen, s, before);
      var step := DataStep(update, loggerOn, fdOpen, run.0, t);
      DataStepFacts(update, loggerOn, fdOpen, run.0, t);
      RecordsAppend(run.1, step.1);
      assert Records(run.1 + step.1) == Range(s.logged, step.0.logged) by {
        if Logs(update, loggerOn, fdOpen, run.0, t) {
          assert Range(s.logged, run.0.logged + 1) == Range(s.logged, run.0.logged) + [run.0.logged];
        }
      }
    }
  }

  /**
   * Lines received since the last fix was shown: the heart beats after the
   * last FixShown notice, added to `start` when no fix was shown at all.
   */
  function LinesSinceFix(ns: seq<Notice>, start: int): int
  {
    if ns == [] then start
    else if ns[|ns| - 1].FixShown? then 0
    else LinesSinceFix(ns[..|ns| - 1], start) + (if ns[|ns| - 1].HeartBeat? then 1 else 0)
  }

  lemma {:induction false} LinesSinceFixAppend(a: seq<Notice>, b: seq<Notice>, start: int)
    ensures LinesSinceFix(a + b, start) == LinesSinceFix(b, LinesSinceFix(a, start))
    decreases |b|
  {
    if b == [] {
      assert a + b == a;
    } else {
      assert (a + b)[..|a + b| - 1] == a + b[..|b| - 1];
      LinesSinceFixAppend(a, b[..|b| - 1], start);
    }
  }

  /** Each iteration of `gps_data` keeps the invalid-fix counter equal to the lines shown since the last fix. */
  lemma {:induction false} DataStepCounts(update: Decoder, loggerOn: bool, fdOpen: bool, s: DataState, t: Tick)
    ensures DataStep(update, loggerOn, fdOpen, s, t).0.invalid == LinesSinceFix(DataStep(update, loggerOn, fdOpen, s, t).1, s.invalid)
  {
    var r := DataStep(update, loggerOn, fdOpen, s, t);
    var ns := r.1;
    if t.read.Line? {
      var fix := update(t.read.text, s.pos);
      if fix.0 == 1 {
        var shown := [HeartBeat(s.heartBeat), FixShown(fix.1), AlertCleared];
        LinesSinceFixAppend([HeartBeat(s.heartBeat), FixShown(fix.1)], [AlertCleared], s.invalid);
        assert [HeartBeat(s.heartBeat), FixShown(fix.1)] + [AlertCleared] == shown;
        if loggerOn && fix.1.ggaRmcSync != 0 && fdOpen {
          LinesSinceFixAppend(shown, [Logged(s.logged, fix.1)], s.invalid);
        }
      } else {
        LinesSinceFixAppend([HeartBeat(s.heartBeat)], [FixNotValid], s.invalid);
        assert [HeartBeat(s.heartBeat)] + [FixNotValid] == [HeartBeat(s.heartBeat), FixNotValid];
      }
    }
  }

  /**
   * Across a session of `gps_data` the invalid-fix counter is the number
   * of lines received since the last valid fix was shown (on top of its
   * starting value when none was), so the advisory means more than
   * FixPatience lines in a row carried no fix.
   */
  lemma {:induction false} CounterIsLinesSinceFix(update: Decoder, loggerOn: bool, fdOpen: bool, s: DataState, ticks: seq<Tick>)
    ensures DataRun(update, loggerOn, fdOpen, s, ticks).0.invalid == LinesSinceFix(DataRun(update, loggerOn, fdOpen, s, ticks).1, s.invalid)
    decreases |ticks|
  {
    if ticks != [] {
      var before := ticks[..|ticks| - 1];
      var t := ticks[|ticks| - 1];
      assert ticks == before + [t];
      CounterIsLinesSinceFix(update, loggerOn, fdOpen, s, before);
      DataRunSnoc(update, loggerOn, fdOpen, s, before, t);
      var run := DataRun(update, loggerOn, fdOpen, s, before);
      DataStepCounts(update, loggerOn, fdOpen, run.0, t);
      LinesSinceFixAppend(run.1, DataStep(update, loggerOn, fdOpen, run.0, t).1, s.invalid);
    }
  }

  // ---------------------------------------------------------------------
  // gps_map_nav

  /** Inclusive containment on all four edges (rpi/nav.c:1351-1353, 1370-1371). */
  predicate Covers(m: MapRecord, lat: real, long: real)
  {
    m.brLat <= lat <= m.tlLat && m.tlLong <= long <= m.brLong
  }

  /** The first map from index `i` on that covers the position, in catalogue order. */
  function FirstCovering(maps: seq<MapRecord>, lat: real, long: real, i: nat): (r: Option<nat>)
    requires i <= |maps|
    ensures r.Some? ==> i <= r.value < |maps| && Covers(maps[r.value], lat, long)
    ensures r.Some? ==> forall j :: i <= j < r.value ==> !Covers(maps[j], lat, long)
    ensures r.None? <==> forall j :: i <= j < |maps| ==> !Covers(maps[j], lat, long)
    decreases |maps| - i
  {
    if i == |maps| then None
    else if Covers(maps[i], lat, long) then Some(i)
    else FirstCovering(maps, lat, long, i + 1)
  }

  /** The sentence decoder, the map catalogue, the map file reader (`load_map_image`) and the patch geometry. */
  datatype MapEnv = MapEnv(update: Decoder, maps: seq<MapRecord>, load: MapRecord -> Option<seq<bv16>>, geometry: Geometry)

  /** The image reader allocates `height * width` pixels for every map it loads. */
  ghost predicate Loads(env: MapEnv)
  {
    forall m :: Holds(env.load(m), m)
  }

  /**
   * The locals of `gps_map_nav`, its static `loaded_map`, the global
   * position and `map_image`; `faulted` records that the iteration read
   * through a NULL raster or outside the sine table.
   */
  datatype MapState = MapState(
    pos: Position,
    invalid: int,
    heartBeat: char,
    loaded: Option<MapRecord>,
    image: Option<seq<bv16>>,
    faulted: bool)

  /** A loaded raster holds its whole map. */
  predicate Consistent(s: MapState)
  {
    s.loaded.Some? ==> Holds(s.image, s.loaded.value)
  }

  /** `(int)heading` indexes the 360-entry sine and cosine tables: C truncates toward zero. */
  predicate InTable(heading: real)
  {
    -1.0 < heading < TableSize as real
  }

  /** `(int)pos->heading`: truncation toward zero, so a heading in (-1, 0) gives 0. */
  function Theta(heading: real): (theta: int)
    requires InTable(heading)
    ensures 0 <= theta < TableSize
    ensures var magnitude := if heading < 0.0 then -heading else heading;
      theta as real <= magnitude < theta as real + 1.0
  {
    if heading < 0.0 then 0 else heading.Floor
  }

  /** The end of every iteration that reached the screen: the exit hint and the toggled heart beat. */
  function Trailer(s: MapState, ns: seq<Notice>): (MapState, seq<Notice>)
  {
    (s.(heartBeat := Toggle(s.heartBeat)), ns + [ExitHint, HeartBeat(Toggle(s.heartBeat))])
  }

  /**
   * `get_map_patch` from the session's view (rpi/nav.c:1483-1530): without
   * a raster it reports a load error and carries on, so it faults as soon
   * as a viewport cell falls inside the map; a heading outside the tables
   * faults too. Otherwise the position marker is drawn.
   */
  function Draw(env: MapEnv, s: MapState, m: MapRecord): (MapState, seq<Notice>)
  {
    var lost := if s.image.None? then [LoadError] else [];
    if !InTable(s.pos.heading) then (s.(faulted := true), lost)
    else if s.image.None? && Reaches(env.geometry, m, Theta(s.pos.heading), env.geometry.centre(s.pos, m)) then
      (s.(faulted := true), lost)
    else Trailer(s, lost + [Marker])
  }

  /**
   * One iteration of the loop of `gps_map_nav` (rpi/nav.c:1317-1412) after
   * a button other than LEFT. A valid fix resets the invalid-fix counter;
   * the loaded map is kept while it still covers the position, with
   * whatever raster `map_image` holds, otherwise the first covering map of
   * the catalogue is loaded, or there is none. Any other line counts one
   * more invalid fix. A faulted session stays as it is.
   */
  function MapStep(env: MapEnv, s: MapState, tick: Tick): (r: (MapState, seq<Notice>))
    ensures s.faulted ==> r == (s, [])
    ensures !s.faulted && !tick.read.Line? ==> r.0.pos == s.pos && r.0.invalid == s.invalid && !r.0.faulted
    ensures !s.faulted && tick.read.Line? ==> r.0.pos == env.update(tick.read.text, s.pos).1
    ensures !s.faulted && ValidFix(env.update, tick, s.pos) ==> r.0.invalid == 0
    ensures !s.faulted && NoFix(env.update, tick, s.pos) ==> r.0.invalid == s.invalid + 1 && !r.0.faulted
    ensures !s.faulted ==> (FixNotValid in r.1 <==> NoFix(env.update, tick, s.pos) && r.0.invalid > FixPatience)
    ensures !ValidFix(env.update, tick, s.pos) ==> r.0.loaded == s.loaded && r.0.image == s.image
    ensures !s.faulted && ValidFix(env.update, tick, s.pos) ==>
      (r.0.loaded.Some? ==> Covers(r.0.loaded.value, r.0.pos.latitude, r.0.pos.longitude))
    ensures !s.faulted && ValidFix(env.update, tick, s.pos) && r.0.loaded.None? ==>
      NoMapForLocation in r.1 && FirstCovering(env.maps, r.0.pos.latitude, r.0.pos.longitude, 0).None?
    ensures Loads(env) && Consistent(s) ==> Consistent(r.0)
  {
    if s.faulted then (s, [])
    else match tick.read
      case NoData => (s, [])
      case ReadError => Trailer(s, [UartError])
      case Line(text) =>
        var fix := env.update(text, s.pos);
        var p := fix.1;
        if fix.0 != 1 then
          var n := s.invalid + 1;
          Trailer(s.(pos := p, invalid := n), if n > FixPatience then [FixNotValid] else [])
        else
          var t := s.(pos := p, invalid := 0);
          if t.loaded.Some? && Covers(t.loaded.value, p.latitude, p.longitude) then
            Draw(env, t, t.loaded.value)
          else
            match FirstCovering(env.maps, p.latitude, p.longitude, 0)
            case Some(k) =>
              Draw(env, t.(loaded := Some(env.maps[k]), image := env.load(env.maps[k])), env.maps[k])
            case None =>
              Trailer(t.(loaded := None), [NoMapForLocation, Marker])
  }

  /** The iterations of `gps_map_nav` over `ticks`, none of them a LEFT press. */
  function MapRun(env: MapEnv, s: MapState, ticks: seq<Tick>): (MapState, seq<Notice>)
  {
    Run((u: MapState, t: Tick) => MapStep(env, u, t), s, ticks)
  }

  lemma {:induction false} MapRunSnoc(env: MapEnv, s: MapState, ticks: seq<Tick>, t: Tick)
    ensures MapRun(env, s, ticks + [t]).0 == MapStep(env, MapRun(env, s, ticks).0, t).0
    ensures MapRun(env, s, ticks + [t]).1 == MapRun(env, s, ticks).1 + MapStep(env, MapRun(env, s, ticks).0, t).1
  {
    RunSnoc((u: MapState, t: Tick) => MapStep(env, u, t), s, ticks, t);
  }

  /** Once an iteration has faulted nothing after it happens. */
  lemma {:induction false} FaultStays(env: MapEnv, s: MapState, ticks: seq<Tick>)
    requires s.faulted
    ensures MapRun(env, s, ticks) == (s, [])
    decreases |ticks|
  {
    if ticks != [] {
      var before := ticks[..|ticks| - 1];
      assert ticks == before + [ticks[|ticks| - 1]];
      FaultStays(env, s, before);
      MapRunSnoc(env, s, before, ticks[|ticks| - 1]);
    }
  }

  /** A session that has faulted stays where it faulted, whatever ticks come after. */
  lemma {:induction false} FaultEndsRun(env: MapEnv, s: MapState, a: seq<Tick>, b: seq<Tick>)
    requires MapRun(env, s, a).0.faulted
    ensures MapRun(env, s, a + b) == MapRun(env, s, a)
  {
    RunAppend((u: MapState, t: Tick) => MapStep(env, u, t), s, a, b);
    FaultStays(env, MapRun(env, s, a).0, b);
    assert MapRun(env, s, a).1 + [] == MapRun(env, s, a).1;
  }

  /** Across a session the loaded raster keeps holding the loaded map. */
  lemma {:induction false} MapRunConsistent(env: MapEnv, s: MapState, ticks: seq<Tick>)
    requires Loads(env) && Consistent(s)
    ensures Consistent(MapRun(env, s, ticks).0)
    decreases |ticks|
  {
    if ticks != [] {
      var before := ticks[..|ticks| - 1];
      assert ticks == before + [ticks[|ticks| - 1]];
      MapRunConsistent(env, s, before);
      MapRunSnoc(env, s, before, ticks[|ticks| - 1]);
    }
  }

  /**
   * The stale map of rpi/nav.c:1298, 1351-1360 and 1415-1416: a session
   * that starts with `loaded_map` still set from an earlier session, whose
   * end freed `map_image`, takes the "still inside" path for a valid fix in
   * that map and faults on the NULL raster whenever the viewport reaches
   * the map.
   */
  lemma {:induction false} StaleMapFaults(env: MapEnv, s: MapState, m: MapRecord, tick: Tick)
    requires !s.faulted && s.loaded == Some(m) && s.image.None? && ValidFix(env.update, tick, s.pos)
    requires Covers(m, env.update(tick.read.text, s.pos).1.latitude, env.update(tick.read.text, s.pos).1.longitude)
    requires var p := env.update(tick.read.text, s.pos).1;
      InTable(p.heading) && Reaches(env.geometry, m, Theta(p.heading), env.geometry.centre(p, m))
    ensures MapStep(env, s, tick).0.faulted
    ensures MapStep(env, s, tick).1 == [LoadError]
  {
  }
}
