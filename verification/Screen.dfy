/** pksniff, user side: the keys, the selection and the scroll position, over whole sessions. */
module Screen {
  import opened Prelude
  import opened Events
  import opened FilterLanguage
  import opened LineEditor
  import opened PacketStore

  const KEY_DOWN := 258
  const KEY_UP := 259
  const KEY_HOME := 262
  const KEY_NPAGE := 338
  const KEY_PPAGE := 339
  const KEY_END := 360
  const KEY_RESIZE := 410

  const STATS_ROWS: int := 8
  const FRAME_ROWS: int := 4
  const MIN_LIST_ROWS: int := 4

  /** What the user side remembers besides packets and statistics; `rows` is the height of the list window. */
  datatype Ui = Ui(
    filter: Filter, line: Line, editing: bool, detail: bool, paused: bool, running: bool,
    rows: int, selected: int, scrollTop: int)

  predicate IsLetter(ch: int, lower: char)
    requires 'a' <= lower <= 'z'
  {
    ch == lower as int || ch == lower as int - 32
  }

  /** Height of the list window on a terminal with this many rows. */
  function ListRows(screenRows: int): int {
    if screenRows - FRAME_ROWS - STATS_ROWS < MIN_LIST_ROWS then MIN_LIST_ROWS else screenRows - FRAME_ROWS - STATS_ROWS
  }

  function LastRow(vcount: int): int { if vcount > 0 then vcount - 1 else 0 }

  /** The selection after a navigation key; `rows - 2` is a page. */
  function Navigate(selected: int, ch: int, vcount: int, rows: int): int {
    if ch == KEY_UP || ch == 'k' as int then if selected > 0 then selected - 1 else selected
    else if ch == KEY_DOWN || ch == 'j' as int then if selected < vcount - 1 then selected + 1 else selected
    else if ch == KEY_PPAGE then if selected - (rows - 2) < 0 then 0 else selected - (rows - 2)
    else if ch == KEY_NPAGE then if selected + (rows - 2) >= vcount then LastRow(vcount) else selected + (rows - 2)
    else if ch == KEY_HOME then 0
    else if ch == KEY_END then LastRow(vcount)
    else selected
  }

  /** A key outside the filter editor, with `vcount` events matching. */
  function NormalKey(u: Ui, ch: int, vcount: int, screenRows: int): Ui {
    if IsLetter(ch, 'q') then u.(running := false)
    else if IsLetter(ch, 'p') then u.(paused := !u.paused)
    else if IsLetter(ch, 'f') then u.(editing := true, line := Line(u.line.text, |u.line.text|))
    else if IsLetter(ch, 'd') || ch == 10 || ch == KEY_ENTER then u.(detail := !u.detail, rows := ListRows(screenRows))
    else if IsLetter(ch, 'r') then u.(filter := NO_FILTER, line := Line("", 0))
    else if IsLetter(ch, 's') then u
    else if ch == KEY_RESIZE then u.(rows := ListRows(screenRows))
    else u.(selected := Navigate(u.selected, ch, vcount, u.rows))
  }

  /** A key inside the filter editor. */
  function FilterKey(u: Ui, ch: int): Ui
    requires ValidLine(u.line)
  {
    if ch == ESC then u.(editing := false)
    else if ch == 10 || ch == KEY_ENTER then
      u.(filter := Parse(u.line.text), selected := 0, scrollTop := 0, editing := false)
    else u.(line := Edit(u.line, ch))
  }

  /** The clamping done before the list is drawn. */
  function Redrawn(u: Ui, vcount: int): Ui {
    var selected := if u.selected >= vcount then LastRow(vcount) else u.selected;
    var top := if u.scrollTop > selected then selected else u.scrollTop;
    u.(selected := selected, scrollTop := if selected >= top + u.rows - 1 then selected - u.rows + 2 else top)
  }

  // ---- selection and scrolling ----

  /** The selection is one of the matches and stands in the window (below its header row). */
  predicate Framed(u: Ui, vcount: int) {
    && 0 <= u.scrollTop <= u.selected < u.scrollTop + u.rows - 1
    && if vcount > 0 then u.selected < vcount else u.selected == 0
  }

  /** A redraw frames the selection exactly when the window has a row for a packet. */
  lemma RedrawnFramedExactly(u: Ui, vcount: nat)
    requires 0 <= u.selected && 0 <= u.scrollTop
    ensures Framed(Redrawn(u, vcount), vcount) <==> u.rows >= 2
  {
  }

  /** A redraw moves nothing that is already framed. */
  lemma FramedStays(u: Ui, vcount: nat)
    requires Framed(u, vcount)
    ensures Redrawn(u, vcount) == u
  {
  }

  function Distance(a: int, b: int): nat { if a <= b then b - a else a - b }

  /** A redraw moves the selection and the window no further than it must. */
  lemma RedrawnIsNearest(u: Ui, vcount: nat, v: Ui)
    requires 0 <= u.selected && 0 <= u.scrollTop && u.rows >= 2
    requires Framed(v, vcount) && v.rows == u.rows
    ensures Distance(u.selected, Redrawn(u, vcount).selected) <= Distance(u.selected, v.selected)
    ensures v.selected == Redrawn(u, vcount).selected ==>
              Distance(u.scrollTop, Redrawn(u, vcount).scrollTop) <= Distance(u.scrollTop, v.scrollTop)
  {
  }

  function Clamped(n: int, low: int, high: int): int { if n < low then low else if n > high then high else n }

  /** What the navigation keys do on a list with a selection: 107 (k) and 259 go up one row, 106 (j) and 258 down one,
      339 and 338 a page of rows - 2, 262 and 360 to the ends, none of them beyond the list; other keys do nothing. */
  lemma NavigationExactly(selected: int, ch: int, vcount: int, rows: int)
    requires 0 <= selected < vcount && rows >= 2
    ensures Navigate(selected, ch, vcount, rows) ==
            if ch == 107 || ch == 259 then Clamped(selected - 1, 0, vcount - 1)
            else if ch == 106 || ch == 258 then Clamped(selected + 1, 0, vcount - 1)
            else if ch == 339 then Clamped(selected - (rows - 2), 0, vcount - 1)
            else if ch == 338 then Clamped(selected + (rows - 2), 0, vcount - 1)
            else if ch == 262 then 0
            else if ch == 360 then vcount - 1
            else selected
  {
  }

  /** The keys that move one row, and the two ends, on a list with a selection. */
  lemma NavigationLaws(selected: int, vcount: int, rows: int)
    requires 0 <= selected < vcount && rows >= 2
    ensures selected < vcount - 1 ==> Navigate(Navigate(selected, KEY_DOWN, vcount, rows), KEY_UP, vcount, rows) == selected
    ensures selected > 0 ==> Navigate(Navigate(selected, KEY_UP, vcount, rows), KEY_DOWN, vcount, rows) == selected
    ensures selected + (rows - 2) < vcount ==>
              Navigate(Navigate(selected, KEY_NPAGE, vcount, rows), KEY_PPAGE, vcount, rows) == selected
    ensures forall ch :: 0 <= Navigate(selected, ch, vcount, rows) < vcount
  {
  }

  /** The list window has all rows of the terminal but twelve, and at least four. */
  lemma ListRowsExactly(screenRows: int)
    ensures ListRows(screenRows) >= 4 && (screenRows >= 16 ==> ListRows(screenRows) == screenRows - 12)
    ensures screenRows < 16 ==> ListRows(screenRows) == 4
  {
  }

  // ---- whole sessions ----

  /** One thing that happens: a packet event arrives, a key is pressed, the screen is redrawn. */
  datatype Step =
    | Arrive(e: Event)
    | Press(ch: int, screenRows: int)
    | Redraw

  /** `history` holds every event recorded so far, oldest first. */
  datatype State = State(history: seq<Event>, ui: Ui)

  ghost function VisibleCount(s: State): nat { |Shown(s.history, s.ui.filter)| }

  ghost function Next(s: State, step: Step): (t: State)
    requires ValidLine(s.ui.line)
    ensures ValidLine(t.ui.line)
  {
    if step.Arrive? then if s.ui.paused then s else s.(history := s.history + [step.e])
    else if step.Redraw? then s.(ui := Redrawn(s.ui, VisibleCount(s)))
    else if s.ui.editing then
      EditStaysValid(s.ui.line, step.ch);
      s.(ui := FilterKey(s.ui, step.ch))
    else s.(ui := NormalKey(s.ui, step.ch, VisibleCount(s), step.screenRows))
  }

  function Start(screenRows: int): State {
    State([], Ui(NO_FILTER, Line("", 0), false, false, false, true, ListRows(screenRows), 0, 0))
  }

  ghost function StateAt(screenRows: int, steps: seq<Step>, i: nat): (s: State)
    requires i <= |steps|
    ensures ValidLine(s.ui.line)
    decreases i
  {
    if i == 0 then Start(screenRows) else Next(StateAt(screenRows, steps, i - 1), steps[i - 1])
  }

  /** What holds in every reachable state. */
  predicate Sound(u: Ui) {
    && u.rows >= MIN_LIST_ROWS && 0 <= u.selected && 0 <= u.scrollTop
    && Expressible(u.filter)
  }

  lemma NormalKeySound(u: Ui, ch: int, vcount: nat, screenRows: int)
    requires Sound(u)
    ensures Sound(NormalKey(u, ch, vcount, screenRows))
  {
  }

  lemma FilterKeySound(u: Ui, ch: int)
    requires Sound(u) && ValidLine(u.line)
    ensures Sound(FilterKey(u, ch))
  {
    if ch == 10 || ch == KEY_ENTER { ParseExpressible(u.line.text); }
  }

  lemma NextSound(s: State, step: Step)
    requires ValidLine(s.ui.line) && Sound(s.ui)
    ensures Sound(Next(s, step).ui)
    ensures step.Redraw? ==> Framed(Next(s, step).ui, VisibleCount(Next(s, step)))
  {
    if step.Press? {
      if s.ui.editing { FilterKeySound(s.ui, step.ch); } else { NormalKeySound(s.ui, step.ch, VisibleCount(s), step.screenRows); }
    } else if step.Redraw? {
      RedrawnFramedExactly(s.ui, VisibleCount(s));
    }
  }

  lemma {:induction false} AlwaysSound(screenRows: int, steps: seq<Step>, i: nat)
    requires i <= |steps|
    ensures Sound(StateAt(screenRows, steps, i).ui)
    decreases i
  {
    if i > 0 {
      AlwaysSound(screenRows, steps, i - 1);
      NextSound(StateAt(screenRows, steps, i - 1), steps[i - 1]);
    }
  }

  /** Over any interleaving of packets, keys, filter changes, resizes and redraws: each redraw leaves the selection on
      a match and inside the window, and the bar it shows parses back to the filter in force. */
  lemma SelectionAlwaysFramed(screenRows: int, steps: seq<Step>, i: nat)
    requires i < |steps| && steps[i].Redraw?
    ensures var s := StateAt(screenRows, steps, i + 1);
            && Framed(s.ui, VisibleCount(s))
            && (VisibleCount(s) > 0 ==> Matches(s.ui.filter, s.history[Shown(s.history, s.ui.filter)[s.ui.selected]]))
            && Parse(Summary(s.ui.filter)) == s.ui.filter
  {
    var before, s := StateAt(screenRows, steps, i), StateAt(screenRows, steps, i + 1);
    AlwaysSound(screenRows, steps, i);
    NextSound(before, steps[i]);
    assert s == Next(before, steps[i]);
    SummaryParsesBack(s.ui.filter);
    ShownMatch(s.history, s.ui.filter);
  }

  // ---- what the keys do to the filter, the editor and the switches ----

  /** Enter: 10 or 343. */
  predicate EnterKey(ch: int) { ch == 10 || ch == 343 }

  /** The filter in force, told by the keys: the one typed when Enter last closed the editor, or none if R (114 or 82)
      was pressed outside the editor since. */
  ghost function FilterTold(screenRows: int, steps: seq<Step>, i: nat): Filter
    requires i <= |steps|
    decreases i
  {
    if i == 0 then NO_FILTER
    else
      var u, step := StateAt(screenRows, steps, i - 1).ui, steps[i - 1];
      if step.Press? && u.editing && EnterKey(step.ch) then Parse(u.line.text)
      else if step.Press? && !u.editing && (step.ch == 114 || step.ch == 82) then NO_FILTER
      else FilterTold(screenRows, steps, i - 1)
  }

  lemma FilterStep(s: State, step: Step)
    requires ValidLine(s.ui.line)
    ensures Next(s, step).ui.filter ==
            if step.Press? && s.ui.editing && EnterKey(step.ch) then Parse(s.ui.line.text)
            else if step.Press? && !s.ui.editing && (step.ch == 114 || step.ch == 82) then NO_FILTER
            else s.ui.filter
  {
    hide Parse, Edit;
  }

  /** In every session the filter in force is the one the keys tell; packets, redraws, Esc and all other keys leave it. */
  lemma {:induction false} FilterInForce(screenRows: int, steps: seq<Step>, i: nat)
    requires i <= |steps|
    ensures StateAt(screenRows, steps, i).ui.filter == FilterTold(screenRows, steps, i)
    decreases i
  {
    if i > 0 {
      var before, step := StateAt(screenRows, steps, i - 1), steps[i - 1];
      FilterInForce(screenRows, steps, i - 1);
      hide Next, Parse;
      FilterStep(before, step);
    }
  }

  /** Inside the editor: Enter closes it and goes to the top of the list, Esc (27) closes it, and every other key edits
      the line; nothing else changes but, on Enter, the filter. */
  lemma EditorKeys(u: Ui, ch: int)
    requires ValidLine(u.line)
    ensures var v := FilterKey(u, ch);
            && v.detail == u.detail && v.paused == u.paused && v.running == u.running && v.rows == u.rows
            && v.line == (if EnterKey(ch) || ch == 27 then u.line else Edit(u.line, ch))
            && (v.editing <==> u.editing && !EnterKey(ch) && ch != 27)
            && (EnterKey(ch) ==> v.selected == 0 && v.scrollTop == 0)
            && (!EnterKey(ch) ==> v.selected == u.selected && v.scrollTop == u.scrollTop && v.filter == u.filter)
  {
    hide Edit, Parse;
  }

  predicate Either(ch: int, small: int, capital: int) { ch == small || ch == capital }

  /** Outside the editor: Q stops, P pauses or resumes, F opens the editor at the end of its text, D or Enter opens or
      closes the detail panel, R empties the line, and D, Enter and a resize (410) fit the window to the terminal. No key
      scrolls by itself, and only the navigation keys move the selection. */
  lemma CommandKeys(u: Ui, ch: int, vcount: int, screenRows: int)
    ensures var v := NormalKey(u, ch, vcount, screenRows);
            && (v.running <==> u.running && !Either(ch, 113, 81))
            && (v.paused <==> if Either(ch, 112, 80) then !u.paused else u.paused)
            && (v.editing <==> u.editing || Either(ch, 102, 70))
            && (v.detail <==> if Either(ch, 100, 68) || EnterKey(ch) then !u.detail else u.detail)
            && v.rows == (if Either(ch, 100, 68) || EnterKey(ch) || ch == 410 then ListRows(screenRows) else u.rows)
            && v.line == (if Either(ch, 102, 70) then Line(u.line.text, |u.line.text|)
                          else if Either(ch, 114, 82) then Line("", 0) else u.line)
            && v.scrollTop == u.scrollTop
            && (v.selected != u.selected ==> ch in {106, 107, 258, 259, 262, 338, 339, 360})
            && (ch in {106, 107, 258, 259, 262, 338, 339, 360} ==> v.selected == Navigate(u.selected, ch, vcount, u.rows))
  {
  }

  /** The four switches of a session. */
  datatype Switches = Switches(running: bool, editing: bool, detail: bool, paused: bool)

  /** What a step does to the switches: a small machine of its own, driven by the keys alone. */
  function SwitchAfter(w: Switches, step: Step): Switches {
    if !step.Press? then w
    else if w.editing then if EnterKey(step.ch) || step.ch == 27 then w.(editing := false) else w
    else if Either(step.ch, 113, 81) then w.(running := false)
    else if Either(step.ch, 112, 80) then w.(paused := !w.paused)
    else if Either(step.ch, 102, 70) then w.(editing := true)
    else if Either(step.ch, 100, 68) || EnterKey(step.ch) then w.(detail := !w.detail)
    else w
  }

  function SwitchesTold(steps: seq<Step>, i: nat): Switches
    requires i <= |steps|
    decreases i
  {
    if i == 0 then Switches(true, false, false, false) else SwitchAfter(SwitchesTold(steps, i - 1), steps[i - 1])
  }

  function SwitchesOf(u: Ui): Switches { Switches(u.running, u.editing, u.detail, u.paused) }

  lemma SwitchStep(s: State, step: Step)
    requires ValidLine(s.ui.line)
    ensures SwitchesOf(Next(s, step).ui) == SwitchAfter(SwitchesOf(s.ui), step)
  {
    if step.Press? {
      if s.ui.editing {
        EditorKeys(s.ui, step.ch);
      } else {
        CommandKeys(s.ui, step.ch, VisibleCount(s), step.screenRows);
      }
      hide FilterKey, NormalKey;
    }
  }

  /** In every session the switches are those of the small machine: what arrives, what is listed and how large the
      terminal is make no difference to them. */
  lemma {:induction false} SwitchesInForce(screenRows: int, steps: seq<Step>, i: nat)
    requires i <= |steps|
    ensures SwitchesOf(StateAt(screenRows, steps, i).ui) == SwitchesTold(steps, i)
    decreases i
  {
    hide SwitchAfter, SwitchesOf, Next;
    if i == 0 {
      StartSwitches(screenRows);
    } else {
      SwitchesInForce(screenRows, steps, i - 1);
      SwitchStep(StateAt(screenRows, steps, i - 1), steps[i - 1]);
    }
  }

  lemma StartSwitches(screenRows: int)
    ensures SwitchesOf(Start(screenRows).ui) == Switches(true, false, false, false)
  {
  }

  // ---- what the recorded history is ----

  /** Whether step `i` switches recording off or on. */
  ghost predicate Toggles(screenRows: int, steps: seq<Step>, i: nat)
    requires i < |steps|
  {
    steps[i].Press? && IsLetter(steps[i].ch, 'p') && !StateAt(screenRows, steps, i).ui.editing
  }

  ghost function ToggleCount(screenRows: int, steps: seq<Step>, i: nat): nat
    requires i <= |steps|
    decreases i
  {
    if i == 0 then 0 else ToggleCount(screenRows, steps, i - 1) + if Toggles(screenRows, steps, i - 1) then 1 else 0
  }

  /** The events that arrive while the number of toggles so far is even. */
  ghost function Unpaused(screenRows: int, steps: seq<Step>, i: nat): seq<Event>
    requires i <= |steps|
    decreases i
  {
    if i == 0 then []
    else if steps[i - 1].Arrive? && ToggleCount(screenRows, steps, i - 1) % 2 == 0
      then Unpaused(screenRows, steps, i - 1) + [steps[i - 1].e]
    else Unpaused(screenRows, steps, i - 1)
  }

  /** Recording is off after an odd number of toggles, and the history is the unpaused events. */
  ghost predicate HistoryFits(s: State, toggles: nat, unpaused: seq<Event>) {
    (s.ui.paused <==> toggles % 2 == 1) && s.history == unpaused
  }

  lemma HistoryStep(s: State, step: Step, toggles: nat, unpaused: seq<Event>)
    requires ValidLine(s.ui.line) && HistoryFits(s, toggles, unpaused)
    ensures HistoryFits(Next(s, step),
                        toggles + (if step.Press? && IsLetter(step.ch, 'p') && !s.ui.editing then 1 else 0),
                        if step.Arrive? && toggles % 2 == 0 then unpaused + [step.e] else unpaused)
  {
  }

  /** The history is the unpaused events, whatever else happens in between. */
  lemma {:induction false} HistoryIsUnpaused(screenRows: int, steps: seq<Step>, i: nat)
    requires i <= |steps|
    ensures HistoryFits(StateAt(screenRows, steps, i), ToggleCount(screenRows, steps, i), Unpaused(screenRows, steps, i))
    decreases i
  {
    if i > 0 {
      HistoryIsUnpaused(screenRows, steps, i - 1);
      HistoryStep(StateAt(screenRows, steps, i - 1), steps[i - 1],
                  ToggleCount(screenRows, steps, i - 1), Unpaused(screenRows, steps, i - 1));
    }
  }

  // ---- does the selection stay on its packet? ----

  lemma ShownMatch(h: seq<Event>, f: Filter)
    ensures forall k :: 0 <= k < |Shown(h, f)| ==> Matches(f, h[Shown(h, f)[k]])
  {
    MatchingBounds(h, Oldest(|h|), |h|, f);
  }

  lemma {:induction false} MatchingLater(h: seq<Event>, e: Event, lo: nat, n: nat, f: Filter)
    requires n <= |h|
    ensures Matching(h + [e], lo, n, f) == Matching(h, lo, n, f)
    decreases n
  {
    hide Matches;
    if n > lo { MatchingLater(h, e, lo, n - 1, f); }
  }

  /** Moving the lower end past one event drops that event if it matches. */
  lemma {:induction false} MatchingFrom(h: seq<Event>, lo: nat, n: nat, f: Filter)
    requires lo < n <= |h|
    ensures Matching(h, lo, n, f) == (if Matches(f, h[lo]) then [lo] else []) + Matching(h, lo + 1, n, f)
    decreases n
  {
    hide Matches;
    var first, rest := if Matches(f, h[lo]) then [lo] else [], Matching(h, lo + 1, n - 1, f);
    var last := if Matches(f, h[n - 1]) then [n - 1] else [];
    if n == lo + 1 {
      assert Matching(h, lo, lo, f) == [] && Matching(h, lo + 1, n, f) == [];
    } else {
      MatchingFrom(h, lo, n - 1, f);
      assert (first + rest) + last == first + (rest + last);
    }
  }

  /** What falls out of the list when a packet arrives: the oldest event, if the ring is full and it is listed. */
  ghost function Dropped(h: seq<Event>, f: Filter): seq<nat> {
    if |h| >= MAX_PACKETS && Matches(f, h[Oldest(|h|)]) then [Oldest(|h|)] else []
  }

  /** The list before an arrival plus the new packet is what falls out plus the list after it. */
  lemma ListConserved(h: seq<Event>, e: Event, f: Filter)
    ensures Shown(h, f) + (if Matches(f, e) then [|h|] else []) == Dropped(h, f) + Shown(h + [e], f)
  {
    var n, lo := |h|, Oldest(|h|);
    var kept := Matching(h, Oldest(n + 1), n, f);
    MatchingLater(h, e, Oldest(n + 1), n, f);
    assert (h + [e])[n] == e;
    assert Shown(h + [e], f) == kept + if Matches(f, e) then [n] else [];
    if n >= MAX_PACKETS { MatchingFrom(h, lo, n, f); }
    assert Shown(h, f) == Dropped(h, f) + kept;
  }

  /** An arriving packet leaves the k-th listed packet in its place exactly when nothing falls out of the list;
      otherwise that place goes to a later packet. */
  lemma PlaceKeptExactlyWhen(h: seq<Event>, e: Event, f: Filter, k: nat)
    requires k < |Shown(h, f)|
    ensures (k < |Shown(h + [e], f)| && Shown(h + [e], f)[k] == Shown(h, f)[k])
            <==> (|h| < 8192 || !Matches(f, h[|h| - 8192]))
  {
    var before, after := Shown(h, f), Shown(h + [e], f);
    ListConserved(h, e, f);
    if Dropped(h, f) != [] {
      MatchingAscends(h, Oldest(|h|), |h|, f);
      PlaceShifts(before, if Matches(f, e) then [|h|] else [], Oldest(|h|), after, k);
    } else {
      assert ([] + after)[k] == before[k];
    }
  }

  lemma PlaceShifts(before: seq<nat>, new_: seq<nat>, first: nat, after: seq<nat>, k: nat)
    requires before + new_ == [first] + after && k < |before| && |new_| <= 1
    requires Ascending(before) && forall j :: 0 <= j < |new_| ==> before[|before| - 1] < new_[j]
    ensures k < |after| ==> before[k] < after[k]
  {
    if k < |after| {
      assert after[k] == ([first] + after)[k + 1] == (before + new_)[k + 1];
    }
  }
}
