/**
 * The states, main menu and push-button input of the navigator in
 * rpi/nav.c. The hardware buttons and the GPS serial line are inputs: every
 * call of `push_button_read` consumes one `Tick`, whose `read` is what the
 * serial line delivers in the same loop iteration of a GPS session (the
 * menu ignores it).
 */
module NavMenu {
  import opened Wrappers

  // Navigator states (rpi/nav.c:51-56).
  const StateInit := 0
  const StateMainMenu := 1
  const StateGpsData := 2
  const StateMapNav := 3
  const StateLogger := 4
  const StateExit := 5

  // Main menu entries, top to bottom (rpi/nav.c:59-64).
  const MenuTop := 0
  const MenuMap := 0
  const MenuGpsDat := 1
  const MenuGprTrk := 2
  const MenuShutdown := 3
  const MenuBottom := 3

  // Push-button codes (rpi/inc/util.h:56-61).
  const PbNone := -1
  const PbSelect := 0
  const PbUp := 1
  const PbDown := 2
  const PbLeft := 3
  const PbRight := 4

  /** What `uart_read_line` reports: nothing new (0), an error (< 0), or a line of text. */
  datatype Read = NoData | ReadError | Line(text: string)

  /** One `push_button_read` and, in a GPS session, the line read that follows it. */
  datatype Tick = Tick(button: int, read: Read)

  predicate OnMenu(selection: int)
  {
    MenuTop <= selection <= MenuBottom
  }

  /**
   * The state SELECT leads to from menu entry `selection`. The switch of
   * rpi/nav.c:904-917 has no default, so an entry outside the menu leaves
   * the navigator in the main menu.
   */
  function Selected(selection: int): (s: int)
    ensures OnMenu(selection) ==> s in {StateMapNav, StateGpsData, StateLogger, StateExit}
    ensures !OnMenu(selection) ==> s == StateMainMenu
  {
    if selection == MenuMap then StateMapNav
    else if selection == MenuGpsDat then StateGpsData
    else if selection == MenuGprTrk then StateLogger
    else if selection == MenuShutdown then StateExit
    else StateMainMenu
  }

  /** Distinct menu entries lead to distinct states: together with `Selected`'s range, every session and EXIT has exactly one entry. */
  lemma {:induction false} SelectedInjective(i: int, j: int)
    requires OnMenu(i) && OnMenu(j) && Selected(i) == Selected(j)
    ensures i == j
  {
  }

  /** The state and menu entry after one iteration of the main-menu loop. */
  datatype Menu = Menu(state: int, selection: int)

  /**
   * One button press in the main menu (rpi/nav.c:899-938): SELECT chooses
   * the entry's state, UP and DOWN move the selection cyclically through the
   * four entries, and every other code changes nothing.
   */
  function MenuKey(selection: int, button: int): (m: Menu)
    ensures button == PbSelect ==> m.state == Selected(selection)
    ensures button != PbSelect ==> m.state == StateMainMenu
    ensures OnMenu(selection) ==> OnMenu(m.selection)
    ensures OnMenu(selection) && button == PbUp ==> m.selection == (selection + 3) % 4
    ensures OnMenu(selection) && button == PbDown ==> m.selection == (selection + 1) % 4
    ensures button != PbUp && button != PbDown ==> m.selection == selection
  {
    if button == PbSelect then Menu(Selected(selection), selection)
    else if button == PbUp then
      Menu(StateMainMenu, if selection - 1 < MenuTop then MenuBottom else selection - 1)
    else if button == PbDown then
      Menu(StateMainMenu, if selection + 1 > MenuBottom then MenuTop else selection + 1)
    else Menu(StateMainMenu, selection)
  }

  /** UP undoes DOWN and DOWN undoes UP on every menu entry. */
  lemma {:induction false} UpDownInverse(selection: int)
    requires OnMenu(selection)
    ensures MenuKey(MenuKey(selection, PbUp).selection, PbDown).selection == selection
    ensures MenuKey(MenuKey(selection, PbDown).selection, PbUp).selection == selection
  {
  }

  /**
   * The main-menu loop from tick `i` with the selection at `selection`: the
   * state chosen and the index of the first tick after the SELECT press
   * that chose it, or None when the ticks run out first.
   */
  function MenuRun(selection: int, ticks: seq<Tick>, i: nat): (r: Option<(int, nat)>)
    requires i <= |ticks|
    ensures r.Some? ==> i < r.value.1 <= |ticks| && ticks[r.value.1 - 1].button == PbSelect
    ensures r.Some? ==> r.value.0 != StateMainMenu
    ensures r.Some? && OnMenu(selection) ==> r.value.0 in {StateMapNav, StateGpsData, StateLogger, StateExit}
    decreases |ticks| - i
  {
    if i == |ticks| then None
    else
      var m := MenuKey(selection, ticks[i].button);
      if m.state != StateMainMenu then Some((m.state, i + 1))
      else MenuRun(m.selection, ticks, i + 1)
  }

  /** While the selection is on the menu, the menu is left exactly when a SELECT press comes. */
  lemma {:induction false} MenuLeftOnSelect(selection: int, ticks: seq<Tick>, i: nat)
    requires i <= |ticks| && OnMenu(selection)
    ensures MenuRun(selection, ticks, i).Some? <==> exists j :: i <= j < |ticks| && ticks[j].button == PbSelect
    ensures MenuRun(selection, ticks, i).Some? ==>
      forall j :: i <= j < MenuRun(selection, ticks, i).value.1 - 1 ==> ticks[j].button != PbSelect
    decreases |ticks| - i
  {
    if i < |ticks| {
      var m := MenuKey(selection, ticks[i].button);
      if m.state == StateMainMenu {
        MenuLeftOnSelect(m.selection, ticks, i + 1);
        if exists j :: i <= j < |ticks| && ticks[j].button == PbSelect {
          var j :| i <= j < |ticks| && ticks[j].button == PbSelect;
          assert j != i;
        }
      }
    }
  }

  /** Entering the menu selects the map entry, and UP from the top wraps to the shutdown entry. */
  lemma {:induction false} UpThenSelectExits(ticks: seq<Tick>, i: nat)
    requires i + 2 <= |ticks| && ticks[i].button == PbUp && ticks[i + 1].button == PbSelect
    ensures MenuRun(MenuMap, ticks, i) == Some((StateExit, i + 2))
  {
    assert MenuKey(MenuMap, PbUp) == Menu(StateMainMenu, MenuShutdown);
  }

  /** A SELECT press straight after entering the menu starts the map session. */
  lemma {:induction false} SelectStartsMap(ticks: seq<Tick>, i: nat)
    requires i < |ticks| && ticks[i].button == PbSelect
    ensures MenuRun(MenuMap, ticks, i) == Some((StateMapNav, i + 1))
  {
  }

  /**
   * Where a GPS session that starts at tick `i` stops reading: at the first
   * LEFT press (`while (push_button_read() != PB_LEFT)`), or at the end of
   * the ticks when none comes.
   */
  function SessionEnd(ticks: seq<Tick>, i: nat): (k: nat)
    requires i <= |ticks|
    ensures i <= k <= |ticks|
    ensures forall j :: i <= j < k ==> ticks[j].button != PbLeft
    ensures k < |ticks| ==> ticks[k].button == PbLeft
    decreases |ticks| - i
  {
    if i == |ticks| || ticks[i].button == PbLeft then i else SessionEnd(ticks, i + 1)
  }

  /** The session stops at `k` exactly when no LEFT press comes before `k` and one comes at `k`, or the ticks end there. */
  lemma {:induction false} SessionEndAt(ticks: seq<Tick>, i: nat, k: nat)
    requires i <= k <= |ticks| && forall j :: i <= j < k ==> ticks[j].button != PbLeft
    requires k == |ticks| || ticks[k].button == PbLeft
    ensures SessionEnd(ticks, i) == k
    decreases k - i
  {
    if i < k {
      SessionEndAt(ticks, i + 1, k);
    }
  }
}
