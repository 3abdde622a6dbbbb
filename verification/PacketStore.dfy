/** pksniff, user side: the 8192-slot circular packet store and the four scans over it. */
module PacketStore {
  import opened Prelude
  import opened Events
  import opened FilterLanguage
  import opened Pcap

  const MAX_PACKETS: nat := 8192

  /** Which packets of a history the ring still holds: from this index on. */
  function Oldest(n: nat): nat { if n < MAX_PACKETS then 0 else n - MAX_PACKETS }

  /** The indices in h[lo..n] of the events that match, in arrival order. */
  ghost function Matching(h: seq<Event>, lo: nat, n: nat, f: Filter): seq<nat>
    requires n <= |h|
  {
    if n <= lo then []
    else if Matches(f, h[n - 1]) then Matching(h, lo, n - 1, f) + [n - 1]
    else Matching(h, lo, n - 1, f)
  }

  lemma {:induction false} MatchingBounds(h: seq<Event>, lo: nat, n: nat, f: Filter)
    requires n <= |h|
    ensures var m := Matching(h, lo, n, f);
            && (forall k :: 0 <= k < |m| ==> lo <= m[k] < n && Matches(f, h[m[k]]))
            && |m| <= (if n <= lo then 0 else n - lo)
    decreases n
  {
    hide Matches;
    if n > lo { MatchingBounds(h, lo, n - 1, f); }
  }

  /** Every match is there. */
  lemma {:induction false} MatchingComplete(h: seq<Event>, lo: nat, n: nat, f: Filter, i: nat)
    requires lo <= i < n <= |h| && Matches(f, h[i])
    ensures i in Matching(h, lo, n, f)
    decreases n
  {
    hide Matches;
    if i < n - 1 { MatchingComplete(h, lo, n - 1, f, i); }
  }

  ghost predicate Ascending(m: seq<nat>) {
    forall j, k :: 0 <= j < k < |m| ==> m[j] < m[k]
  }

  /** Each match is there once, and in arrival order. */
  lemma {:induction false} MatchingAscends(h: seq<Event>, lo: nat, n: nat, f: Filter)
    requires n <= |h|
    ensures Ascending(Matching(h, lo, n, f))
    decreases n
  {
    hide Matches;
    if n > lo {
      MatchingAscends(h, lo, n - 1, f);
      MatchingBounds(h, lo, n - 1, f);
    }
  }

  lemma {:induction false} MatchingPrefix(h: seq<Event>, lo: nat, n: nat, m: nat, f: Filter)
    requires n <= m <= |h|
    ensures var a, b := Matching(h, lo, n, f), Matching(h, lo, m, f);
            |a| <= |b| && forall k :: 0 <= k < |a| ==> a[k] == b[k]
    decreases m
  {
    hide Matches;
    if n < m { MatchingPrefix(h, lo, n, m - 1, f); }
  }

  /** The events a filter selects from the ring. */
  ghost function Shown(h: seq<Event>, f: Filter): (m: seq<nat>)
    ensures forall k :: 0 <= k < |m| ==> Oldest(|h|) <= m[k] < |h|
  {
    MatchingBounds(h, Oldest(|h|), |h|, f);
    Matching(h, Oldest(|h|), |h|, f)
  }

  /** The list holds the matching packets among the last 8192, each once and in arrival order. */
  lemma ShownExactly(h: seq<Event>, f: Filter, i: nat)
    ensures i in Shown(h, f) <==> i < |h| && |h| - i <= 8192 && Matches(f, h[i])
    ensures Ascending(Shown(h, f))
  {
    hide Matches;
    MatchingBounds(h, Oldest(|h|), |h|, f);
    MatchingAscends(h, Oldest(|h|), |h|, f);
    if i < |h| && |h| - i <= 8192 && Matches(f, h[i]) { MatchingComplete(h, Oldest(|h|), |h|, f, i); }
  }

  /** The place of a matching ring entry in the list is the number of matches before it. */
  lemma PlaceOf(h: seq<Event>, f: Filter, i: nat)
    requires Oldest(|h|) + i < |h| && Matches(f, h[Oldest(|h|) + i])
    ensures var k := |Matching(h, Oldest(|h|), Oldest(|h|) + i, f)|; k < |Shown(h, f)| && Shown(h, f)[k] == Oldest(|h|) + i
  {
    MatchingPrefix(h, Oldest(|h|), Oldest(|h|) + i + 1, |h|, f);
  }

  ghost predicate AllCaptured(h: seq<Event>) {
    forall i :: 0 <= i < |h| ==> WellCaptured(h[i])
  }

  /** The records of the first `n` selected events, `clock` giving the wall-clock reading for each. */
  ghost function Saved(h: seq<Event>, m: seq<nat>, n: nat, clock: nat -> Stamp): seq<Record>
    requires AllCaptured(h) && n <= |m| && forall k :: 0 <= k < |m| ==> m[k] < |h|
  {
    if n == 0 then [] else Saved(h, m, n - 1, clock) + [RecordOf(clock(n - 1), h[m[n - 1]])]
  }

  lemma {:induction false} SavedAt(h: seq<Event>, m: seq<nat>, n: nat, clock: nat -> Stamp, k: nat)
    requires AllCaptured(h) && n <= |m| && (forall k :: 0 <= k < |m| ==> m[k] < |h|) && k < n
    ensures |Saved(h, m, n, clock)| == n
    ensures var r, e := Saved(h, m, n, clock)[k], h[m[k]];
            && r.sec == clock(k).sec && r.usec == clock(k).usec
            && r.origLen == e.header.packetLen && r.bytes == e.packet[..e.header.capLen]
    decreases n
  {
    if n == 1 {
      assert Saved(h, m, 0, clock) == [];
    } else {
      SavedAt(h, m, n - 1, clock, if k < n - 1 then k else n - 2);
    }
  }

  class Store {
    const ring: array<Event>
    var head: int
    var count: int
    ghost var history: seq<Event>

    ghost predicate Valid()
      reads this, ring
    {
      && ring.Length == MAX_PACKETS
      && head == |history| % MAX_PACKETS
      && count == |history| - Oldest(|history|)
      && (forall i :: Oldest(|history|) <= i < |history| ==> ring[i % MAX_PACKETS] == history[i])
      && AllCaptured(history)
    }

    constructor (blank: Event)
      ensures Valid() && history == [] && fresh(ring)
    {
      ring := new Event[MAX_PACKETS](_ => blank);
      head, count, history := 0, 0, [];
    }

    /** Appends an event, overwriting the oldest when full. */
    method Record(e: Event)
      requires Valid() && WellCaptured(e)
      modifies this, ring
      ensures Valid() && history == old(history) + [e]
    {
      ghost var n := |history|;
      forall i: nat | Oldest(n + 1) <= i < n ensures i % MAX_PACKETS != n % MAX_PACKETS {
        SlotsDiffer(i, n);
      }
      NextSlot(n);
      ring[head] := e;
      head := (head + 1) % MAX_PACKETS;
      if count < MAX_PACKETS {
        count := count + 1;
      }
      history := history + [e];
    }

    /** The i-th packet of the ring, oldest first. */
    method SlotOf(total: int, i: int) returns (idx: int)
      requires Valid() && total == count && 0 <= i < total
      ensures 0 <= idx < MAX_PACKETS && idx == (Oldest(|history|) + i) % MAX_PACKETS
      ensures ring[idx] == history[Oldest(|history|) + i]
    {
      idx := (head - total + i + MAX_PACKETS) % MAX_PACKETS;
      SlotIndex(|history|, i);
    }

    /** The filtered list of ring slots that the packet list is drawn from. */
    method VisibleList(f: Filter) returns (visible: seq<int>)
      requires Valid()
      ensures |visible| == |Shown(history, f)|
      ensures forall k :: 0 <= k < |visible| ==> visible[k] == Shown(history, f)[k] % MAX_PACKETS
      ensures forall k :: 0 <= k < |visible| ==> ring[visible[k]] == history[Shown(history, f)[k]]
    {
      var total := count;
      visible := [];
      ghost var lo := Oldest(|history|);
      for i := 0 to total
        invariant |visible| == |Matching(history, lo, lo + i, f)| <= i
        invariant forall k :: 0 <= k < |visible| ==> visible[k] == Matching(history, lo, lo + i, f)[k] % MAX_PACKETS
      {
        if |visible| >= MAX_PACKETS {
          break;
        }
        var idx := SlotOf(total, i);
        var matches := EventMatches(f, ring[idx]);
        if matches {
          visible := visible + [idx];
        }
      }
      MatchingBounds(history, lo, |history|, f);
    }

    method CountMatches(f: Filter) returns (vcount: int)
      requires Valid()
      ensures vcount == |Shown(history, f)|
    {
      var total := count;
      vcount := 0;
      ghost var lo := Oldest(|history|);
      for i := 0 to total
        invariant vcount == |Matching(history, lo, lo + i, f)|
      {
        var idx := SlotOf(total, i);
        var matches := EventMatches(f, ring[idx]);
        if matches {
          vcount := vcount + 1;
        }
      }
    }

    /** The ring slot of the `selected`-th match, or -1. */
    method FindSelected(f: Filter, selected: int) returns (selIdx: int)
      requires Valid()
      ensures selIdx == if 0 <= selected < |Shown(history, f)| then Shown(history, f)[selected] % MAX_PACKETS else -1
      ensures selIdx >= 0 ==> selIdx < MAX_PACKETS && ring[selIdx] == history[Shown(history, f)[selected]]
    {
      var total := count;
      var vcount := 0;
      selIdx := -1;
      ghost var lo := Oldest(|history|);
      MatchingBounds(history, lo, |history|, f);
      for i := 0 to total
        invariant vcount == |Matching(history, lo, lo + i, f)|
        invariant selected >= 0 ==> vcount <= selected
      {
        var idx := SlotOf(total, i);
        var matches := EventMatches(f, ring[idx]);
        if matches {
          if vcount == selected {
            PlaceOf(history, f, i);
            return idx;
          }
          vcount := vcount + 1;
        }
      }
    }

    /** Saves the matching events; `created` says whether the file could be created. */
    method SaveFiltered(f: Filter, created: bool, clock: nat -> Stamp) returns (file: PcapFile?)
      requires Valid()
      ensures file == null <==> !created
      ensures file != null ==> fresh(file) && file.Valid()
      ensures file != null ==> file.records == Saved(history, Shown(history, f), |Shown(history, f)|, clock)
      ensures file != null ==> ReadsAs(file.bytes, file.records)
    {
      if !created {
        return null;
      }
      var out := new PcapFile();
      WriteMatches(f, out, clock);
      FileRoundTrip(out.records);
      file := out;
    }

    method WriteMatches(f: Filter, out: PcapFile, clock: nat -> Stamp)
      requires Valid() && out.Valid() && out.records == []
      modifies out
      ensures out.Valid() && out.records == Saved(history, Shown(history, f), |Shown(history, f)|, clock)
    {
      var total := count;
      var written := 0;
      for i := 0 to total
        invariant out.Valid() && SavedSoFar(history, f, clock, i, written, out.records)
      {
        var idx := SlotOf(total, i);
        written := WriteIfMatching(f, ring[idx], i, out, clock, written);
      }
      AllSaved(history, f, clock, total, written, out.records);
    }

    /** Writes `e`, the i-th event of the ring, if it matches. */
    method WriteIfMatching(f: Filter, e: Event, i: nat, out: PcapFile, clock: nat -> Stamp, written: nat)
      returns (now: nat)
      requires AllCaptured(history) && out.Valid()
      requires Oldest(|history|) + i < |history| && e == history[Oldest(|history|) + i]
      requires SavedSoFar(history, f, clock, i, written, out.records)
      modifies out
      ensures out.Valid() && SavedSoFar(history, f, clock, i + 1, now, out.records)
    {
      now := written;
      var matches := EventMatches(f, e);
      if matches {
        PlaceOf(history, f, i);
        out.WriteRecord(clock(written), e);
        now := written + 1;
      }
    }
  }

  /** After the first `i` slots, `written` records: those of the first matches. */
  ghost predicate SavedSoFar(h: seq<Event>, f: Filter, clock: nat -> Stamp, i: nat, written: nat, rs: seq<Record>)
    requires AllCaptured(h) && Oldest(|h|) + i <= |h|
  {
    && written == |Matching(h, Oldest(|h|), Oldest(|h|) + i, f)| <= |Shown(h, f)|
    && rs == Saved(h, Shown(h, f), written, clock)
  }

  lemma AllSaved(h: seq<Event>, f: Filter, clock: nat -> Stamp, i: nat, written: nat, rs: seq<Record>)
    requires AllCaptured(h) && Oldest(|h|) + i == |h| && SavedSoFar(h, f, clock, i, written, rs)
    ensures rs == Saved(h, Shown(h, f), |Shown(h, f)|, clock)
  {
  }

  lemma SlotIndex(n: nat, i: nat)
    requires i < n - Oldest(n)
    ensures (n % MAX_PACKETS - (n - Oldest(n)) + i + MAX_PACKETS) % MAX_PACKETS == (Oldest(n) + i) % MAX_PACKETS
  {
    var q := n / MAX_PACKETS;
    assert n == MAX_PACKETS * q + n % MAX_PACKETS;
    var x := n % MAX_PACKETS - (n - Oldest(n)) + i + MAX_PACKETS;
    assert Oldest(n) + i == x + MAX_PACKETS * (q - 1);
    ModShift(x, q - 1);
  }

  lemma NextSlot(n: nat)
    ensures (n % MAX_PACKETS + 1) % MAX_PACKETS == (n + 1) % MAX_PACKETS
  {
    ModShift(n % MAX_PACKETS + 1, n / MAX_PACKETS);
  }

  /** Two packets less than a ring apart lie in different slots. */
  lemma SlotsDiffer(i: nat, n: nat)
    requires i < n < i + MAX_PACKETS
    ensures i % MAX_PACKETS != n % MAX_PACKETS
  {
    var a, b := i / MAX_PACKETS, n / MAX_PACKETS;
    assert i == MAX_PACKETS * a + i % MAX_PACKETS && n == MAX_PACKETS * b + n % MAX_PACKETS;
  }

  lemma ModShift(x: int, k: int)
    ensures (x + MAX_PACKETS * k) % MAX_PACKETS == x % MAX_PACKETS
  {
    var r := x % MAX_PACKETS;
    assert x == MAX_PACKETS * (x / MAX_PACKETS) + r;
    assert x + MAX_PACKETS * k == MAX_PACKETS * (x / MAX_PACKETS + k) + r;
  }
}
