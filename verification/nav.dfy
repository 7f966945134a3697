/**
 * The navigator of rpi/nav.c: the state machine `navigator()` with its
 * main menu, the two GPS sessions `gps_data` and `gps_map_nav`, the map
 * scan and `get_map_patch`, over the globals they share (`state`,
 * `usb_mounted`, `pos`, `map_list`, `map_image`, the static `loaded_map`
 * and the frame buffer seen as 16-bit pixel words).
 *
 * Hardware, files and the serial line are inputs (`Env`, `Tick`); what a
 * session shows on screen is a sequence of notices.
 */
module Nav {
  import opened Wrappers
  import opened Arith
  import opened Streams
  import opened NmeaPosition
  import opened NavMenu
  import opened NavPatch
  import opened NavSession

  /** FRAME_BUFF_SIZE: one 16-bit word per pixel of the 128 by 160 screen. */
  const FrameBuffSize := 20480

  /** The position record as `memset` zeroes it (rpi/nav.c:881). */
  const Origin := Position(0, "", "", 0, 0, 0.0, 0, 0.0, 0.0, 0.0, 0.0)

  /**
   * What the navigator depends on outside the model: the sentence decoder
   * `nmea_update_pos` (NavSession.NmeaUpdate on the device), whether
   * `gpio_init` succeeds, whether the GO file is on the USB stick, the map
   * catalogue `new_map_list` builds, whether opening the logger file
   * succeeds, the map file reader `load_map_image` and the patch geometry.
   */
  datatype Env = Env(
    update: Decoder,
    gpioOk: bool,
    goFile: bool,
    maps: seq<MapRecord>,
    loggerOpens: bool,
    load: MapRecord -> Option<seq<bv16>>,
    geometry: Geometry)

  /** The map file reader allocates `height * width` pixels for every map it loads. */
  ghost predicate LoadsWhole(env: Env)
  {
    forall m :: Holds(env.load(m), m)
  }

  /** The globals and statics of rpi/nav.c that outlive a session. */
  datatype World = World(
    state: int,
    usbMounted: bool,
    pos: Position,
    maps: seq<MapRecord>,
    loaded: Option<MapRecord>,
    image: Option<seq<bv16>>)

  /**
   * How `navigator()` ends: it returns a code, or a map session faults
   * (NULL raster or a heading outside the tables), or it is still running
   * when the ticks run out.
   */
  datatype Outcome = Returned(code: int) | Faulted | Waiting

  /** What a map session works with: the decoder, the catalogue in `map_list`, the reader and the geometry. */
  function MapsOf(env: Env, w: World): MapEnv
  {
    MapEnv(env.update, w.maps, env.load, env.geometry)
  }

  /** `gps_data` opens the logger file only in logger mode with the USB stick mounted (rpi/nav.c:1180-1183). */
  function LoggerFd(env: Env, loggerOn: bool, usbMounted: bool): bool
  {
    loggerOn && usbMounted && env.loggerOpens
  }

  /** What `gps_data` shows before its loop: the exit hint, then the logger file header or the logger error. */
  function DataOpening(loggerOn: bool, usbMounted: bool, fd: bool): seq<Notice>
  {
    [ExitHint] + (if fd then [LoggerHeader] else []) + (if loggerOn && (!fd || !usbMounted) then [LoggerUnavailable] else [])
  }

  /** One pass of the navigator's loop: it ends with an outcome, or leaves a new world and the next tick. */
  datatype Step = Done(outcome: Outcome) | Next(world: World, next: nat)

  /**
   * One pass of the `while (!close_navigator)` loop of `navigator()`
   * (rpi/nav.c:853-969) in world `w` with tick `i` next. INIT returns -1
   * when the hardware fails and otherwise enters the main menu with the USB
   * flag, the map catalogue and a zeroed position; the main menu, entered
   * with the map entry selected, runs until a SELECT press; every session
   * runs until a LEFT press and returns to the main menu, a map session
   * freeing `map_image` but keeping `loaded_map`; EXIT returns 0. A state
   * outside the machine spins for ever.
   */
  function NavStep(env: Env, w: World, ticks: seq<Tick>, i: nat): (r: Step)
    requires i <= |ticks|
    ensures r.Next? ==> i <= r.next <= |ticks| && (r.next == i ==> w.state == StateInit && r.world.state == StateMainMenu)
    ensures r.Next? ==> r.world.state in {StateMainMenu, StateGpsData, StateMapNav, StateLogger, StateExit}
  {
    if w.state == StateInit then
      if !env.gpioOk then Done(Returned(-1))
      else Next(World(StateMainMenu, w.usbMounted || env.goFile, Origin, env.maps, w.loaded, w.image), i)
    else if w.state == StateMainMenu then
      match MenuRun(MenuMap, ticks, i)
      case None => Done(Waiting)
      case Some(chosen) => Next(w.(state := chosen.0), chosen.1)
    else if w.state == StateGpsData || w.state == StateLogger then
      var logger := w.state == StateLogger;
      var k := SessionEnd(ticks, i);
      var run := DataRun(env.update, logger, LoggerFd(env, logger, w.usbMounted), DataState(w.pos, 0, '*', 0), ticks[i..k]);
      if k == |ticks| then Done(Waiting)
      else Next(w.(state := StateMainMenu, pos := run.0.pos), k + 1)
    else if w.state == StateMapNav then
      var k := SessionEnd(ticks, i);
      var run := MapRun(MapsOf(env, w), MapState(w.pos, 0, '*', w.loaded, w.image, false), ticks[i..k]);
      if run.0.faulted then Done(Faulted)
      else if k == |ticks| then Done(Waiting)
      else Next(w.(state := StateMainMenu, pos := run.0.pos, loaded := run.0.loaded, image := None), k + 1)
    else if w.state == StateExit then Done(Returned(0))
    else Done(Waiting)
  }

  /** The navigator from world `w` with tick `i` next: its passes until one ends it. */
  function Navigation(env: Env, w: World, ticks: seq<Tick>, i: nat): Outcome
    requires i <= |ticks|
    decreases |ticks| - i, if w.state == StateInit then 1 else 0
  {
    match NavStep(env, w, ticks, i)
    case Done(o) => o
    case Next(w', j) => Navigation(env, w', ticks, j)
  }

  /** The navigator returns 0, or -1 when it is started in INIT and the hardware fails; INIT is never entered again. */
  lemma {:induction false} NavigationCodes(env: Env, w: World, ticks: seq<Tick>, i: nat)
    requires i <= |ticks|
    ensures Navigation(env, w, ticks, i).Returned? ==>
      Navigation(env, w, ticks, i).code == 0 || (Navigation(env, w, ticks, i).code == -1 && w.state == StateInit && !env.gpioOk)
    decreases |ticks| - i, if w.state == StateInit then 1 else 0
  {
    match NavStep(env, w, ticks, i)
    case Done(o) =>
    case Next(w', j) =>
      NavigationCodes(env, w', ticks, j);
  }

  /** In the main menu, UP then SELECT shuts the navigator down: the menu starts on the map entry and UP wraps to the last. */
  lemma {:induction false} UpSelectShutsDown(env: Env, w: World, ticks: seq<Tick>, i: nat)
    requires w.state == StateMainMenu && i + 2 <= |ticks|
    requires ticks[i].button == PbUp && ticks[i + 1].button == PbSelect
    ensures Navigation(env, w, ticks, i) == Returned(0)
  {
    UpThenSelectExits(ticks, i);
    assert NavStep(env, w, ticks, i) == Next(w.(state := StateExit), i + 2);
  }

  /**
   * The stale map of rpi/nav.c:1298, 1351-1360 and 1415-1416 seen from the
   * main menu: after a map session `loaded_map` still names a map while
   * `map_image` is NULL, so SELECT (the map entry) followed by a valid fix
   * inside that map, whose viewport reaches the map, faults.
   */
  lemma {:induction false} ReturnToMapFaults(env: Env, w: World, m: MapRecord, ticks: seq<Tick>, i: nat)
    requires w.state == StateMainMenu && w.loaded == Some(m) && w.image.None? && i + 2 <= |ticks|
    requires ticks[i].button == PbSelect && ticks[i + 1].button != PbLeft
    requires ValidFix(env.update, ticks[i + 1], w.pos)
    requires var p := env.update(ticks[i + 1].read.text, w.pos).1;
      Covers(m, p.latitude, p.longitude) && InTable(p.heading) && Reaches(env.geometry, m, Theta(p.heading), env.geometry.centre(p, m))
    ensures Navigation(env, w, ticks, i) == Faulted
  {
    SelectStartsMap(ticks, i);
    var w' := w.(state := StateMapNav);
    assert NavStep(env, w, ticks, i) == Next(w', i + 1);
    var s := MapState(w'.pos, 0, '*', w'.loaded, w'.image, false);
    var k := SessionEnd(ticks, i + 1);
    assert i + 1 < k;
    StaleMapFaults(MapsOf(env, w'), s, m, ticks[i + 1]);
    MapRunSnoc(MapsOf(env, w'), s, [], ticks[i + 1]);
    assert [] + [ticks[i + 1]] == ticks[i + 1..i + 2];
    assert ticks[i + 1..k] == ticks[i + 1..i + 2] + ticks[i + 2..k];
    FaultEndsRun(MapsOf(env, w'), s, ticks[i + 1..i + 2], ticks[i + 2..k]);
  }

  /** A map session whose iteration before tick `k` faulted ends as it was then, whatever the session's remaining ticks. */
  lemma {:induction false} FaultEndsSession(env: MapEnv, s: MapState, ticks: seq<Tick>, i: nat, k: nat)
    requires i < k <= |ticks| && forall j :: i <= j < k ==> ticks[j].button != PbLeft
    requires MapRun(env, s, ticks[i..k]).0.faulted
    ensures MapRun(env, s, ticks[i..SessionEnd(ticks, i)]) == MapRun(env, s, ticks[i..k])
  {
    var e := SessionEnd(ticks, i);
    assert k <= e;
    assert ticks[i..e] == ticks[i..k] + ticks[k..e];
    FaultEndsRun(env, s, ticks[i..k], ticks[k..e]);
  }

  class Navigator {
    var state: int
    var usbMounted: bool
    var pos: Position
    var mapList: seq<MapRecord>
    var loadedMap: Option<MapRecord>
    var mapImage: Option<seq<bv16>>
    /** `frame_buffer.pixel_words`. */
    const frame: array<bv16>

    function Current(): World
      reads this`state, this`usbMounted, this`pos, this`mapList, this`loadedMap, this`mapImage
    {
      World(state, usbMounted, pos, mapList, loadedMap, mapImage)
    }

    /** The loaded raster, if any, holds the whole loaded map. */
    ghost predicate Consistent()
      reads this`loadedMap, this`mapImage
    {
      loadedMap.Some? ==> Holds(mapImage, loadedMap.value)
    }

    /** The globals at start-up: INIT, USB not mounted, zero position, no maps, nothing loaded. */
    constructor()
      ensures Current() == World(StateInit, false, Origin, [], None, None)
      ensures frame.Length == FrameBuffSize
    {
      state := StateInit;
      usbMounted := false;
      pos := Origin;
      mapList := [];
      loadedMap := None;
      mapImage := None;
      frame := new bv16[FrameBuffSize](_ => Black);
    }

    /**
     * `navigator()` (rpi/nav.c:847-977) over the button presses and line
     * reads `ticks`: the state machine runs until EXIT, a failed hardware
     * start, a fault in a map session or the end of the ticks.
     */
    method Navigate(env: Env, ticks: seq<Tick>) returns (r: Outcome)
      requires LoadsWhole(env) && Consistent()
      requires 0 <= Cells(env.geometry.width, env.geometry.height) <= frame.Length
      modifies this, frame
      ensures r == Navigation(env, old(Current()), ticks, 0)
    {
      ghost var goal := Navigation(env, Current(), ticks, 0);
      var closeNavigator := false;
      var i := 0;
      r := Waiting;
      while !closeNavigator
        invariant i <= |ticks| && Consistent()
        invariant !closeNavigator ==> Navigation(env, Current(), ticks, i) == goal
        invariant closeNavigator ==> r == goal
        decreases if closeNavigator then 0 else 1, |ticks| - i, if state == StateInit then 1 else 0
      {
        var step := Pass(env, ticks, i);
        match step {
          case Done(outcome) =>
            r := outcome;
            closeNavigator := true;
          case Next(_, j) =>
            i := j;
        }
      }
    }

    /** One pass of the loop of `navigator()` (rpi/nav.c:855-968): the case of the current state. */
    method Pass(env: Env, ticks: seq<Tick>, i: nat) returns (step: Step)
      requires i <= |ticks|
      requires LoadsWhole(env) && Consistent()
      requires 0 <= Cells(env.geometry.width, env.geometry.height) <= frame.Length
      modifies this, frame
      ensures step == NavStep(env, old(Current()), ticks, i)
      ensures step.Next? ==> Current() == step.world
      ensures Consistent()
    {
      if state == StateInit {
        if !env.gpioOk {
          return Done(Returned(-1));
        }
        if env.goFile {
          usbMounted := true;
        }
        mapList := env.maps;
        pos := Origin;
        state := StateMainMenu;
        step := Next(Current(), i);
      } else if state == StateMainMenu {
        var j, left := MainMenu(ticks, i);
        if !left {
          return Done(Waiting);
        }
        step := Next(Current(), j);
      } else if state == StateGpsData || state == StateLogger {
        var k, _ := GpsData(env, state == StateLogger, ticks, i);
        if k == |ticks| {
          return Done(Waiting);
        }
        state := StateMainMenu;
        step := Next(Current(), k + 1);
      } else if state == StateMapNav {
        var k, faulted, _ := GpsMapNav(env, ticks, i);
        if faulted {
          return Done(Faulted);
        }
        if k == |ticks| {
          return Done(Waiting);
        }
        state := StateMainMenu;
        step := Next(Current(), k + 1);
      } else if state == StateExit {
        ClearFrame(Cells(env.geometry.width, env.geometry.height));
        step := Done(Returned(0));
      } else {
        // `default:;` leaves the state as it is: the machine spins for ever.
        step := Done(Waiting);
      }
    }

    /**
     * The main-menu state of `navigator()` (rpi/nav.c:888-945) from tick
     * `i`: the map entry is selected first, and the loop runs until a
     * SELECT press changes the state; `left` is false when the ticks run out
     * first, and `j` is the tick after the last one read.
     */
    method MainMenu(ticks: seq<Tick>, i: nat) returns (j: nat, left: bool)
      requires i <= |ticks| && state == StateMainMenu
      modifies this`state
      ensures left ==> MenuRun(MenuMap, ticks, i) == Some((state, j))
      ensures !left ==> MenuRun(MenuMap, ticks, i).None? && state == StateMainMenu
    {
      var menuSelection := MenuMap;
      j := i;
      while state == StateMainMenu && j < |ticks|
        invariant i <= j <= |ticks|
        invariant state == StateMainMenu ==> MenuRun(menuSelection, ticks, j) == MenuRun(MenuMap, ticks, i)
        invariant state != StateMainMenu ==> MenuRun(MenuMap, ticks, i) == Some((state, j))
        decreases |ticks| - j
      {
        var buttonCode := ticks[j].button;
        j := j + 1;
        if buttonCode == PbSelect {
          if menuSelection == MenuMap {
            state := StateMapNav;
          } else if menuSelection == MenuGpsDat {
            state := StateGpsData;
          } else if menuSelection == MenuGprTrk {
            state := StateLogger;
          } else if menuSelection == MenuShutdown {
            state := StateExit;
          }
        } else if buttonCode == PbUp {
          menuSelection := menuSelection - 1;
          if menuSelection < MenuTop {
            menuSelection := MenuBottom;
          }
        } else if buttonCode == PbDown {
          menuSelection := menuSelection + 1;
          if menuSelection > MenuBottom {
            menuSelection := MenuTop;
          }
        }
      }
      left := state != StateMainMenu;
    }

    /** `lcdFrameBufferColor` with black over the first `n` pixels. */
    method ClearFrame(n: int)
      requires 0 <= n <= frame.Length
      modifies frame
      ensures forall k :: 0 <= k < n ==> frame[k] == Black
      ensures forall k :: n <= k < frame.Length ==> frame[k] == old(frame[k])
    {
      var k := 0;
      while k < n
        invariant 0 <= k <= n
        invariant forall j :: 0 <= j < k ==> frame[j] == Black
        invariant forall j :: k <= j < frame.Length ==> frame[j] == old(frame[j])
      {
        frame[k] := Black;
        k := k + 1;
      }
    }

    /**
     * `get_map_patch(pos, map, image)` (rpi/nav.c:1473-1533): without a
     * raster it blacks the screen, reports the error and carries on; every
     * viewport cell, row by row, gets its raster pixel when its source lies
     * inside the map and black otherwise, and the first cell that reads
     * through a missing raster faults. A heading whose whole degrees fall
     * outside the sine and cosine tables faults as well.
     */
    method GetMapPatch(p: Position, m: MapRecord, image: Option<seq<bv16>>, g: Geometry) returns (ok: bool, lost: seq<Notice>)
      requires Holds(image, m)
      requires 0 <= Cells(g.width, g.height) <= frame.Length
      modifies frame
      ensures lost == if image.None? then [LoadError] else []
      ensures ok <==> InTable(p.heading) && !(image.None? && Reaches(g, m, Theta(p.heading), g.centre(p, m)))
      ensures ok ==>
        frame[..] == Patch(image, g, m, Theta(p.heading), g.centre(p, m), g.height) + old(frame[..])[Cells(g.width, g.height)..]
    {
      var n := Cells(g.width, g.height);
      lost := [];
      if image.None? {
        ClearFrame(n);
        lost := [LoadError];
      }
      if !InTable(p.heading) {
        return false, lost;
      }
      var theta := Theta(p.heading);
      var centre := g.centre(p, m);
      ghost var cleared := frame[..];
      assert cleared[n..] == old(frame[..])[n..];
      ok := CopyPatch(image, g, m, theta, centre);
    }

    /** The copy loop of `get_map_patch` (rpi/nav.c:1512-1532), row by row over the viewport. */
    method CopyPatch(image: Option<seq<bv16>>, g: Geometry, m: MapRecord, theta: int, centre: (int, int)) returns (ok: bool)
      requires Holds(image, m)
      requires 0 <= Cells(g.width, g.height) <= frame.Length
      modifies frame
      ensures ok <==> !(image.None? && Reaches(g, m, theta, centre))
      ensures ok ==> frame[..] == Patch(image, g, m, theta, centre, g.height) + old(frame[..])[Cells(g.width, g.height)..]
    {
      var roiImgHeight: int := g.height;
      var y: int := 0;
      while y < roiImgHeight
        invariant 0 <= y <= roiImgHeight
        invariant 0 <= Cells(g.width, y) <= Cells(g.width, g.height)
        invariant forall k :: 0 <= k < Cells(g.width, y) ==> frame[k] == Patch(image, g, m, theta, centre, y)[k]
        invariant forall k :: Cells(g.width, y) <= k < frame.Length ==> frame[k] == old(frame[k])
        invariant image.None? ==> MissesBefore(g, m, theta, centre, 0, y)
      {
        CellsRow(g.width, y, roiImgHeight);
        ghost var above := Patch(image, g, m, theta, centre, y);
        ghost var row := PatchRow(image, g, m, theta, centre, y);
        var rowOk := PatchRowInto(image, g, m, theta, centre, y);
        if !rowOk {
          return false;
        }
        assert Patch(image, g, m, theta, centre, y + 1) == above + row;
        if image.None? {
          MissesRow(g, m, theta, centre, y);
        }
        y := y + 1;
      }
      assert frame[..] == Patch(image, g, m, theta, centre, roiImgHeight) + old(frame[..])[Cells(g.width, g.height)..];
      ok := true;
      if image.None? {
        MissesAll(g, m, theta, centre);
      }
    }

    /**
     * Row `y` of the copy loop of `get_map_patch` (rpi/nav.c:1514-1531):
     * cell x of the row goes to `y * width + x` of the frame; it stops at
     * the first cell that would read through a missing raster.
     */
    method PatchRowInto(image: Option<seq<bv16>>, g: Geometry, m: MapRecord, theta: int, centre: (int, int), y: int) returns (ok: bool)
      requires Holds(image, m) && 0 <= y < g.height
      requires 0 <= Cells(g.width, y) && Cells(g.width, y) + g.width <= frame.Length
      modifies frame
      ensures ok <==> !(image.None? && exists x :: 0 <= x < g.width && Sample(g, m, theta, centre, x, y).Some?)
      ensures ok ==> forall k :: 0 <= k < g.width ==>
        frame[Cells(g.width, y) + k] == PatchRow(image, g, m, theta, centre, y)[k]
      ensures ok ==> forall k :: 0 <= k < frame.Length && !(Cells(g.width, y) <= k < Cells(g.width, y) + g.width) ==>
        frame[k] == old(frame[k])
    {
      var roiImgHeight: int := g.height;
      var roiImgWidth: int := g.width;
      var hheight := roiImgHeight / 2;
      var hwidth := roiImgWidth / 2;
      CellsProduct(roiImgWidth, y);
      ghost var base := Cells(roiImgWidth, y);
      ghost var row := PatchRow(image, g, m, theta, centre, y);
      var x: int := 0;
      while x < roiImgWidth
        invariant 0 <= x <= roiImgWidth
        invariant forall k :: 0 <= k < x ==> frame[base + k] == row[k]
        invariant forall k :: 0 <= k < frame.Length && !(base <= k < base + x) ==> frame[k] == old(frame[k])
        invariant image.None? ==> forall i :: 0 <= i < x ==> Sample(g, m, theta, centre, i, y).None?
      {
        var xt := x - hwidth;
        var yt := y - hheight;
        var d := g.rotate(theta, xt, yt);
        var u := d.0 + centre.0;
        var v := d.1 + centre.1;
        var roiIndex := y * roiImgWidth + x;
        assert Source(g, theta, centre, x, y) == (u, v);
        if u >= 0 && u < m.width && v >= 0 && v < m.height {
          if image.None? {
            assert Sample(g, m, theta, centre, x, y).Some?;
            return false;
          }
          CellsProduct(m.width, v);
          CellsBelow(u, v, m.width, m.height);
          var imgIndex := v * m.width + u;
          assert row[x] == image.value[imgIndex];
          frame[roiIndex] := image.value[imgIndex];
        } else {
          assert row[x] == Black;
          frame[roiIndex] := Black;
        }
        x := x + 1;
      }
      ok := true;
    }

    /**
     * One iteration of the loop of `gps_data` after a button other than
     * LEFT (rpi/nav.c:1205-1267), on the global position and the locals
     * `time_invalid_fix`, `heart_beat` and `logged_points`.
     */
    method DataIteration(update: Decoder, loggerOn: bool, fd: bool, tick: Tick, invalid: int, heartBeat: char, logged: int)
      returns (invalid': int, heartBeat': char, logged': int, ns: seq<Notice>)
      modifies this`pos
      ensures (DataState(pos, invalid', heartBeat', logged'), ns)
        == DataStep(update, loggerOn, fd, DataState(old(pos), invalid, heartBeat, logged), tick)
    {
      invalid', heartBeat', logged', ns := invalid, heartBeat, logged, [];
      match tick.read {
        case NoData =>
        case ReadError =>
          ns := [UartError];
        case Line(text) =>
          ns := [HeartBeat(heartBeat)];
          heartBeat' := if heartBeat == '*' then ' ' else '*';
          var fix := update(text, pos);
          pos := fix.1;
          if fix.0 == 1 {
            invalid' := 0;
            ns := ns + [FixShown(pos), AlertCleared];
            assert ns == [HeartBeat(heartBeat), FixShown(pos), AlertCleared];
            if loggerOn && pos.ggaRmcSync != 0 && fd {
              ns := ns + [Logged(logged, pos)];
              logged' := logged + 1;
            }
          } else {
            invalid' := invalid + 1;
            if invalid' > FixPatience {
              ns := ns + [FixNotValid];
              assert ns == [HeartBeat(heartBeat), FixNotValid];
            }
          }
      }
    }

    /**
     * `gps_data(logger_on)` (rpi/nav.c:1164-1279) from tick `i`: the
     * opening screen and logger file, then one iteration per tick until a
     * LEFT press; returns the index of that press (or the end of the
     * ticks) and what the session showed.
     */
    method GpsData(env: Env, loggerOn: bool, ticks: seq<Tick>, i: nat) returns (k: nat, notices: seq<Notice>)
      requires i <= |ticks|
      modifies this`pos
      ensures k == SessionEnd(ticks, i)
      ensures var fd := LoggerFd(env, loggerOn, usbMounted);
        var run := DataRun(env.update, loggerOn, fd, DataState(old(pos), 0, '*', 0), ticks[i..k]);
        pos == run.0.pos && notices == DataOpening(loggerOn, usbMounted, fd) + run.1
    {
      var fd := loggerOn && usbMounted && env.loggerOpens;
      notices := [ExitHint];
      if fd {
        notices := notices + [LoggerHeader];
      }
      if loggerOn && (!fd || !usbMounted) {
        notices := notices + [LoggerUnavailable];
      }
      assert notices == DataOpening(loggerOn, usbMounted, fd);
      var shown;
      k, shown := DataLoop(env.update, loggerOn, fd, ticks, i);
      notices := notices + shown;
    }

    /** One iteration of `gps_data`, on tick `k`, that continues the run of the session from tick `i`. */
    method DataTick(update: Decoder, loggerOn: bool, fd: bool, ghost start: DataState, ticks: seq<Tick>, i: nat, k: nat,
                    invalid: int, heartBeat: char, logged: int, shown: seq<Notice>)
      returns (invalid': int, heartBeat': char, logged': int, shown': seq<Notice>)
      requires i <= k < |ticks|
      requires DataRun(update, loggerOn, fd, start, ticks[i..k]) == (DataState(pos, invalid, heartBeat, logged), shown)
      modifies this`pos
      ensures DataRun(update, loggerOn, fd, start, ticks[i..k + 1]) == (DataState(pos, invalid', heartBeat', logged'), shown')
    {
      assert ticks[i..k + 1] == ticks[i..k] + [ticks[k]];
      DataRunSnoc(update, loggerOn, fd, start, ticks[i..k], ticks[k]);
      var ns;
      invalid', heartBeat', logged', ns := DataIteration(update, loggerOn, fd, ticks[k], invalid, heartBeat, logged);
      shown' := shown + ns;
    }

    /** The loop of `gps_data` (rpi/nav.c:1204-1272): one iteration per tick until a LEFT press. */
    method DataLoop(update: Decoder, loggerOn: bool, fd: bool, ticks: seq<Tick>, i: nat) returns (k: nat, shown: seq<Notice>)
      requires i <= |ticks|
      modifies this`pos
      ensures k == SessionEnd(ticks, i)
      ensures var run := DataRun(update, loggerOn, fd, DataState(old(pos), 0, '*', 0), ticks[i..k]);
        pos == run.0.pos && shown == run.1
    {
      var invalid := 0;
      var heartBeat := '*';
      var logged := 0;
      ghost var start := DataState(pos, 0, '*', 0);
      shown := [];
      k := i;
      assert ticks[i..k] == [];
      while k < |ticks| && ticks[k].button != PbLeft
        invariant i <= k <= |ticks|
        invariant forall j :: i <= j < k ==> ticks[j].button != PbLeft
        invariant DataRun(update, loggerOn, fd, start, ticks[i..k]) == (DataState(pos, invalid, heartBeat, logged), shown)
        decreases |ticks| - k
      {
        invalid, heartBeat, logged, shown := DataTick(update, loggerOn, fd, start, ticks, i, k, invalid, heartBeat, logged, shown);
        k := k + 1;
      }
      SessionEndAt(ticks, i, k);
    }

    /**
     * One iteration of the loop of `gps_map_nav` after a button other than
     * LEFT (rpi/nav.c:1318-1411), on the globals and the locals
     * `time_invalid_fix` and `heart_beat`; `faulted` reports that
     * `get_map_patch` read through a NULL raster or outside the tables.
     */
    method MapIteration(env: Env, tick: Tick, invalid: int, heartBeat: char)
      returns (invalid': int, heartBeat': char, faulted: bool, ns: seq<Notice>)
      requires LoadsWhole(env) && Consistent()
      requires 0 <= Cells(env.geometry.width, env.geometry.height) <= frame.Length
      modifies this`pos, this`loadedMap, this`mapImage, frame
      ensures (MapState(pos, invalid', heartBeat', loadedMap, mapImage, faulted), ns)
        == MapStep(MapsOf(env, old(Current())), MapState(old(pos), invalid, heartBeat, old(loadedMap), old(mapImage), false), tick)
      ensures Consistent()
    {
      invalid', heartBeat', faulted, ns := invalid, heartBeat, false, [];
      match tick.read {
        case NoData =>
          return;
        case ReadError =>
          ns := [UartError];
        case Line(text) =>
          var fix := env.update(text, pos);
          pos := fix.1;
          if fix.0 == 1 {
            invalid' := 0;
            var ok := true;
            if loadedMap.Some? && Covers(loadedMap.value, pos.latitude, pos.longitude) {
              ok, ns := GetMapPatch(pos, loadedMap.value, mapImage, env.geometry);
            } else {
              var found := ScanMaps(pos.latitude, pos.longitude);
              if found.Some? {
                loadedMap := Some(mapList[found.value]);
                mapImage := env.load(mapList[found.value]);
                ok, ns := GetMapPatch(pos, mapList[found.value], mapImage, env.geometry);
              } else {
                loadedMap := None;
                ClearFrame(Cells(env.geometry.width, env.geometry.height));
                ns := [NoMapForLocation];
              }
            }
            if !ok {
              faulted := true;
              return;
            }
            ns := ns + [Marker];
            assert loadedMap.None? ==> ns == [NoMapForLocation, Marker];
          } else {
            invalid' := invalid + 1;
            if invalid' > FixPatience {
              ns := [FixNotValid];
            }
          }
      }
      heartBeat' := if heartBeat == '*' then ' ' else '*';
      ns := ns + [ExitHint, HeartBeat(heartBeat')];
    }

    /** One iteration of `gps_map_nav`, on tick `k`, that continues the run of the session from tick `i`. */
    method MapTick(env: Env, ghost menv: MapEnv, ghost start: MapState, ticks: seq<Tick>, i: nat, k: nat,
                   invalid: int, heartBeat: char, shown: seq<Notice>)
      returns (invalid': int, heartBeat': char, faulted: bool, shown': seq<Notice>)
      requires i <= k < |ticks|
      requires menv == MapsOf(env, Current())
      requires MapRun(menv, start, ticks[i..k]) == (MapState(pos, invalid, heartBeat, loadedMap, mapImage, false), shown)
      requires LoadsWhole(env) && Consistent()
      requires 0 <= Cells(env.geometry.width, env.geometry.height) <= frame.Length
      modifies this`pos, this`loadedMap, this`mapImage, frame
      ensures MapRun(menv, start, ticks[i..k + 1]) == (MapState(pos, invalid', heartBeat', loadedMap, mapImage, faulted), shown')
      ensures Consistent()
    {
      assert ticks[i..k + 1] == ticks[i..k] + [ticks[k]];
      MapRunSnoc(menv, start, ticks[i..k], ticks[k]);
      var ns;
      invalid', heartBeat', faulted, ns := MapIteration(env, ticks[k], invalid, heartBeat);
      shown' := shown + ns;
    }

    /**
     * The loop of `gps_map_nav` (rpi/nav.c:1317-1412): one iteration per
     * tick until a LEFT press, or until an iteration faults; `k` is the
     * tick after the last iteration.
     */
    method MapLoop(env: Env, ticks: seq<Tick>, i: nat) returns (k: nat, faulted: bool, shown: seq<Notice>)
      requires i <= |ticks|
      requires LoadsWhole(env) && Consistent()
      requires 0 <= Cells(env.geometry.width, env.geometry.height) <= frame.Length
      modifies this`pos, this`loadedMap, this`mapImage, frame
      ensures i <= k <= |ticks| && forall j :: i <= j < k ==> ticks[j].button != PbLeft
      ensures !faulted ==> k == SessionEnd(ticks, i)
      ensures faulted ==> i < k
      ensures var run := MapRun(MapsOf(env, old(Current())), MapState(old(pos), 0, '*', old(loadedMap), old(mapImage), false), ticks[i..k]);
        (run.0.pos, run.0.loaded, run.0.image, run.0.faulted, run.1) == (pos, loadedMap, mapImage, faulted, shown)
      ensures Consistent()
    {
      var invalid := 0;
      var heartBeat := '*';
      ghost var menv := MapsOf(env, Current());
      ghost var start := MapState(pos, 0, '*', loadedMap, mapImage, false);
      shown := [];
      faulted := false;
      k := i;
      assert ticks[i..k] == [];
      while k < |ticks| && ticks[k].button != PbLeft
        invariant i <= k <= |ticks|
        invariant forall j :: i <= j < k ==> ticks[j].button != PbLeft
        invariant MapRun(menv, start, ticks[i..k]) == (MapState(pos, invalid, heartBeat, loadedMap, mapImage, false), shown)
        invariant Consistent()
        decreases |ticks| - k
      {
        invalid, heartBeat, faulted, shown := MapTick(env, menv, start, ticks, i, k, invalid, heartBeat, shown);
        k := k + 1;
        if faulted {
          return;
        }
      }
      SessionEndAt(ticks, i, k);
    }

    /**
     * `gps_map_nav()` (rpi/nav.c:1296-1417) from tick `i`: the opening
     * screen, the loop, and on leaving `map_image` freed while the static
     * `loaded_map` keeps the last map.
     */
    method GpsMapNav(env: Env, ticks: seq<Tick>, i: nat) returns (k: nat, faulted: bool, notices: seq<Notice>)
      requires i <= |ticks|
      requires LoadsWhole(env) && Consistent()
      requires 0 <= Cells(env.geometry.width, env.geometry.height) <= frame.Length
      modifies this`pos, this`loadedMap, this`mapImage, frame
      ensures var run := MapRun(MapsOf(env, old(Current())), MapState(old(pos), 0, '*', old(loadedMap), old(mapImage), false),
          ticks[i..SessionEnd(ticks, i)]);
        faulted == run.0.faulted
        && (!faulted ==>
          k == SessionEnd(ticks, i) && (pos, loadedMap) == (run.0.pos, run.0.loaded) && mapImage.None?
          && notices == (if |mapList| == 0 then [NoMaps] else []) + run.1)
      ensures Consistent()
    {
      ghost var menv := MapsOf(env, Current());
      ghost var start := MapState(pos, 0, '*', loadedMap, mapImage, false);
      ClearFrame(Cells(env.geometry.width, env.geometry.height));
      notices := [];
      if |mapList| == 0 {
        notices := [NoMaps];
      }
      var shown;
      k, faulted, shown := MapLoop(env, ticks, i);
      if faulted {
        FaultEndsSession(menv, start, ticks, i, k);
        return;
      }
      notices := notices + shown;
      mapImage := None;
    }

    /** The map scan of rpi/nav.c:1368-1375 over `map_list`: the first map that covers the position, if any. */
    method ScanMaps(lat: real, long: real) returns (found: Option<nat>)
      ensures found == FirstCovering(mapList, lat, long, 0)
    {
      var j := 0;
      while j < |mapList| && !Covers(mapList[j], lat, long)
        invariant 0 <= j <= |mapList|
        invariant FirstCovering(mapList, lat, long, j) == FirstCovering(mapList, lat, long, 0)
      {
        j := j + 1;
      }
      found := if j < |mapList| then Some(j) else None;
    }
  }
}
