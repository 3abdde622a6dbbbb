/** pksniff, user side: capture and screen put together. Every operation of the running program is a step of the
    session model in Screen. */
module Session {
  import opened Prelude
  import opened Events
  import opened FilterLanguage
  import opened LineEditor
  import opened PacketStore
  import opened Pcap
  import opened Screen
  import opened TopTalkers

  /** The statistics have counted exactly the recorded events. */
  ghost predicate Counted(ps: seq<Pkt>, h: seq<Event>) {
    |ps| == |h| && forall i :: 0 <= i < |h| ==> ps[i] == Pkt(h[i].header.srcIp, h[i].header.packetLen)
  }

  /** The raw capture file has one record for each recorded event, in order, with its bytes and its length. */
  ghost predicate Logged(rs: seq<Record>, h: seq<Event>) {
    && |rs| == |h| && AllCaptured(h)
    && forall i :: 0 <= i < |h| ==>
         rs[i].bytes == h[i].packet[..h[i].header.capLen] && rs[i].origLen == h[i].header.packetLen
  }

  class Sniffer {
    const store: Store
    const talkers: TalkerTable
    const out: PcapFile?
    const filters: FilterState
    const line: FilterLine
    var editing: bool
    var detail: bool
    var paused: bool
    var running: bool
    var rows: int
    var selected: int
    var scrollTop: int

    ghost function Parts(): set<object>
      reads {}
    {
      {this, store, store.ring, talkers, talkers.slots, talkers.top, filters, line, line.buf}
      + if out == null then {} else {out}
    }

    ghost function View(): Ui
      reads Parts()
    {
      Ui(filters.filter, line.View(), editing, detail, paused, running, rows, selected, scrollTop)
    }

    ghost function Current(): State
      reads Parts()
    {
      State(store.history, View())
    }

    ghost function CaptureParts(): set<object>
      reads {}
    {
      {store, store.ring, talkers, talkers.slots, talkers.top} + if out == null then {} else {out}
    }

    /** Store, statistics and capture file tell the same history. */
    ghost predicate ValidCapture()
      reads CaptureParts()
    {
      && store.Valid() && talkers.Valid()
      && (out != null ==> out.Valid() && Logged(out.records, store.history))
      && Counted(talkers.history, store.history)
    }

    ghost predicate Valid()
      reads Parts()
    {
      ValidCapture() && line.Valid() && Sound(View())
    }

    /** A new session; `log` is the raw capture file, if one was asked for and opened. */
    constructor (blank: Event, screenRows: int, log: PcapFile?)
      requires log != null ==> log.Valid() && log.records == []
      ensures Valid() && fresh(Parts() - {log}) && out == log
      ensures Current() == Start(screenRows)
    {
      store := new Store(blank);
      talkers := new TalkerTable();
      filters := new FilterState();
      line := new FilterLine();
      out := log;
      editing, detail, paused, running := false, false, false, true;
      rows := ListRows(screenRows);
      selected, scrollTop := 0, 0;
    }

    /** One event from the kernel; `stamp` is the wall clock read for the capture file, `now` the one for statistics. */
    method HandleEvent(e: Event, stamp: Stamp, now: int)
      requires Valid() && WellCaptured(e)
      modifies Parts()
      ensures Valid() && Current() == Next(old(Current()), Arrive(e))
      ensures old(paused) ==> unchanged(Parts())
      ensures !old(paused) && now - old(talkers.lastStatsTs) >= STATS_INTERVAL && NoCollision(talkers.history) ==>
                TrueTopFive(talkers.history, talkers.top[..])
    {
      if paused {
        return;
      }
      Take(e, stamp, now);
    }

    method Take(e: Event, stamp: Stamp, now: int)
      requires ValidCapture() && WellCaptured(e)
      modifies CaptureParts()
      ensures ValidCapture() && store.history == old(store.history) + [e]
      ensures out != null ==>
                && |out.records| == |old(out.records)| + 1
                && out.records[|out.records| - 1].sec == stamp.sec && out.records[|out.records| - 1].usec == stamp.usec
      ensures now - old(talkers.lastStatsTs) >= STATS_INTERVAL && NoCollision(talkers.history) ==>
                TrueTopFive(talkers.history, talkers.top[..])
    {
      if out != null {
        out.WriteRecord(stamp, e);
      }
      store.Record(e);
      talkers.UpdateStats(Pkt(e.header.srcIp, e.header.packetLen), now);
    }

    /** A key outside the filter editor. `created` says whether the file for 's' could be created. */
    method HandleInputNormal(ch: int, screenRows: int, created: bool, clock: nat -> Stamp) returns (saved: PcapFile?)
      requires Valid() && !editing
      modifies Parts()
      ensures Valid() && Current() == Next(old(Current()), Press(ch, screenRows))
      ensures saved != null <==> IsLetter(ch, 's') && created
      ensures saved != null ==> fresh(saved)
      ensures saved != null ==>
                ReadsAs(saved.bytes, Saved(store.history, Shown(store.history, filters.filter), VisibleCount(Current()), clock))
    {
      saved := null;
      var vcount := store.CountMatches(filters.filter);
      NormalKeySound(View(), ch, vcount, screenRows);
      if IsLetter(ch, 's') {
        saved := store.SaveFiltered(filters.filter, created, clock);
      } else {
        ScreenKey(ch, vcount, screenRows);
      }
    }

    /** The keys that do not touch the packets. */
    method ScreenKey(ch: int, vcount: int, screenRows: int)
      requires line.Valid() && !IsLetter(ch, 's')
      modifies this, filters, line, line.buf
      ensures line.Valid() && View() == NormalKey(old(View()), ch, vcount, screenRows)
    {
      if IsLetter(ch, 'f') {
        editing := true;
        line.Reopen();
      } else if IsLetter(ch, 'r') {
        filters.filter := NO_FILTER;
        line.Clear();
      } else {
        PlainKey(ch, vcount, screenRows);
      }
    }

    /** The keys that change only the screen's own variables. */
    method PlainKey(ch: int, vcount: int, screenRows: int)
      requires !IsLetter(ch, 's') && !IsLetter(ch, 'f') && !IsLetter(ch, 'r')
      modifies this
      ensures View() == NormalKey(old(View()), ch, vcount, screenRows)
    {
      if IsLetter(ch, 'q') {
        running := false;
      } else if IsLetter(ch, 'p') {
        paused := !paused;
      } else if IsLetter(ch, 'd') || ch == 10 || ch == KEY_ENTER {
        detail := !detail;
        rows := ListRows(screenRows);
      } else if ch == KEY_RESIZE {
        rows := ListRows(screenRows);
      } else {
        Move(ch, vcount);
      }
    }

    method Move(ch: int, vcount: int)
      modifies this`selected
      ensures selected == Navigate(old(selected), ch, vcount, rows)
    {
      if ch == KEY_UP || ch == 'k' as int {
        if selected > 0 { selected := selected - 1; }
      } else if ch == KEY_DOWN || ch == 'j' as int {
        if selected < vcount - 1 { selected := selected + 1; }
      } else if ch == KEY_PPAGE {
        selected := selected - (rows - 2);
        if selected < 0 { selected := 0; }
      } else if ch == KEY_NPAGE {
        selected := selected + (rows - 2);
        if selected >= vcount { selected := LastRow(vcount); }
      } else if ch == KEY_HOME {
        selected := 0;
      } else if ch == KEY_END {
        selected := LastRow(vcount);
      }
    }

    /** A key inside the filter editor. */
    method HandleInputFilter(ch: int, screenRows: int)
      requires Valid() && editing
      modifies Parts()
      ensures Valid() && Current() == Next(old(Current()), Press(ch, screenRows))
    {
      FilterKeySound(View(), ch);
      EditorKey(ch);
    }

    method EditorKey(ch: int)
      requires line.Valid()
      modifies this, filters, line, line.buf
      ensures line.Valid() && View() == FilterKey(old(View()), ch)
    {
      if ch == ESC {
        editing := false;
      } else if ch == 10 || ch == KEY_ENTER {
        var text := line.Text();
        filters.ParseFilterStr(text);
        selected, scrollTop := 0, 0;
        editing := false;
      } else {
        line.HandleKey(ch);
      }
    }

    /** The packet list: clamps selection and scroll position, then draws the rows below the header row. */
    method DrawPacketList() returns (drawn: seq<Event>)
      requires Valid()
      modifies this`selected, this`scrollTop
      ensures Valid() && View() == Redrawn(old(View()), VisibleCount(Current())) && Framed(View(), VisibleCount(Current()))
      ensures |drawn| == Min(rows - 1, VisibleCount(Current()) - scrollTop)
      ensures forall k :: 0 <= k < |drawn| ==>
                drawn[k] == store.history[Shown(store.history, filters.filter)[scrollTop + k]]
    {
      var visible := store.VisibleList(filters.filter);
      RedrawnFramedExactly(View(), |visible|);
      Clamp(|visible|);
      drawn := DrawRows(visible);
    }

    method Clamp(vcount: int)
      modifies this`selected, this`scrollTop
      ensures View() == Redrawn(old(View()), vcount)
    {
      if selected >= vcount { selected := LastRow(vcount); }
      if scrollTop > selected { scrollTop := selected; }
      if selected >= scrollTop + rows - 1 { scrollTop := selected - rows + 2; }
    }

    method DrawRows(visible: seq<int>) returns (drawn: seq<Event>)
      requires forall k :: 0 <= k < |visible| ==> 0 <= visible[k] < store.ring.Length
      requires 0 <= scrollTop <= |visible| && 1 <= rows
      ensures |drawn| == Min(rows - 1, |visible| - scrollTop)
      ensures forall k :: 0 <= k < |drawn| ==> drawn[k] == store.ring[visible[scrollTop + k]]
    {
      drawn := [];
      var row := 1;
      while row < rows
        invariant 1 <= row <= rows && |drawn| == row - 1 <= |visible| - scrollTop
        invariant forall k :: 0 <= k < |drawn| ==> drawn[k] == store.ring[visible[scrollTop + k]]
      {
        var vi := scrollTop + row - 1;
        if vi >= |visible| {
          break;
        }
        drawn := drawn + [store.ring[visible[vi]]];
        row := row + 1;
      }
    }

    /** The packet the detail panel shows. */
    method DrawDetail() returns (packet: Option<Event>)
      requires Valid()
      ensures packet == if selected < VisibleCount(Current())
                        then Some(store.history[Shown(store.history, filters.filter)[selected]]) else None
    {
      var selIdx := store.FindSelected(filters.filter, selected);
      if selIdx < 0 {
        return None;
      }
      packet := Some(store.ring[selIdx]);
    }

    /** The filter bar: the text being edited, or a summary that reads back as the filter in force. */
    method DrawFilterBar() returns (bar: string)
      requires line.Valid() && Expressible(filters.filter)
      ensures if editing then bar == line.text else Parse(bar) == filters.filter
    {
      if editing {
        bar := line.Text();
      } else {
        bar := filters.BuildSummary();
        SummaryParsesBack(filters.filter);
      }
    }

    /** The list and, if it is open, the detail panel, which shows the highlighted row. */
    method DrawPackets() returns (drawn: seq<Event>, packet: Option<Event>)
      requires Valid()
      modifies this`selected, this`scrollTop
      ensures Valid() && View() == Redrawn(old(View()), VisibleCount(Current()))
      ensures VisibleCount(Current()) > 0 ==>
                && 0 <= selected - scrollTop < |drawn|
                && Matches(filters.filter, drawn[selected - scrollTop])
                && (detail ==> packet == Some(drawn[selected - scrollTop]))
      ensures VisibleCount(Current()) == 0 || !detail ==> packet == None
    {
      drawn := DrawPacketList();
      packet := None;
      if detail {
        packet := DrawDetail();
      }
      ShownMatch(store.history, filters.filter);
    }

    /** A whole redraw. */
    method RedrawAll() returns (bar: string, drawn: seq<Event>, packet: Option<Event>)
      requires Valid()
      modifies this`selected, this`scrollTop
      ensures Valid() && Current() == Next(old(Current()), Redraw)
      ensures if editing then bar == line.text else Parse(bar) == filters.filter
      ensures VisibleCount(Current()) > 0 ==>
                0 <= selected - scrollTop < |drawn| && (detail ==> packet == Some(drawn[selected - scrollTop]))
    {
      bar := DrawFilterBar();
      drawn, packet := DrawPackets();
    }

    /** The raw capture file decodes to exactly the recorded events, however many of them the ring has dropped. */
    lemma LogDecodes()
      requires Valid() && out != null
      ensures ReadsAs(out.bytes, out.records) && Logged(out.records, store.history)
    {
      FileRoundTrip(out.records);
    }
  }
}
