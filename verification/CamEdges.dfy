/** Camera tracing, user side: the 64-slot ring of delegation edges and the searches over it. */
module CamEdges {
  import opened Prelude
  import opened CamProducer

  const MAX_EDGES: nat := 64
  const CHAIN_WINDOW_NS: nat := 2_000_000_000

  datatype Edge = Edge(ts: u64, src: u32, dst: u32, code: u32, srcName: string)

  /** The extra line the consumer prints below an event. */
  datatype Note = NoNote | Chain(foreground: string, app: string) | Link(srcName: string)

  predicate Fits(e: Edge, pid: u32, ts: u64) {
    e.src == pid && e.ts <= ts <= e.ts + CHAIN_WINDOW_NS
  }

  /** The newest edge of h[lo..hi] that `pid` made within the chain window before `ts`. */
  ghost function Newest(h: seq<Edge>, lo: nat, hi: nat, pid: u32, ts: u64): Option<Edge>
    requires hi <= |h|
  {
    if hi <= lo then None
    else if Fits(h[hi - 1], pid, ts) then Some(h[hi - 1])
    else Newest(h, lo, hi - 1, pid, ts)
  }

  /** The search the tool stands for: over every edge ever received. */
  ghost function SearchAll(h: seq<Edge>, pid: u32, ts: u64): Option<Edge> {
    Newest(h, 0, |h|, pid, ts)
  }

  /** Where the part of the history that the ring still holds begins. */
  function Oldest(n: nat): nat { if n < MAX_EDGES then 0 else n - MAX_EDGES }

  ghost function EdgeOf(e: CamEvent, appName: string): Edge {
    Edge(e.timestamp, e.pid, e.extra1 % U32, e.extra2 % U32, appName)
  }

  /** The edge history after the first `n` events of a batch; `app` is what /proc said at each. */
  ghost function HistoryAfter(h: seq<Edge>, events: seq<CamEvent>, n: nat, app: nat -> string): seq<Edge>
    requires n <= |events|
  {
    if n == 0 then h
    else if events[n - 1].kind == DelegationEdge
      then HistoryAfter(h, events, n - 1, app) + [EdgeOf(events[n - 1], app(n - 1))]
    else HistoryAfter(h, events, n - 1, app)
  }

  /** The extra line for an event, given the edges received before it: names chain when they differ, frame activity is
      linked to the newest fitting caller. */
  ghost function NoteOf(h: seq<Edge>, e: CamEvent, appName: string, foreground: string): Note {
    var found := Newest(h, Oldest(|h|), |h|, e.pid, e.timestamp);
    var chained := foreground != "" && foreground != appName;
    if e.kind == DelegationEdge then if chained && Contains(appName, "gms.ui") then Chain(foreground, appName) else NoNote
    else if e.kind == BinderCall then if chained && found.Some? then Chain(foreground, appName) else NoNote
    else if e.kind != AppSession && found.Some? then Link(found.value.srcName)
    else NoNote
  }

  class EdgeRing {
    const edges: array<Edge>
    var edgePos: nat
    ghost var history: seq<Edge>

    ghost predicate Valid()
      reads this, edges
    {
      && edges.Length == MAX_EDGES
      && edgePos == |history|
      && forall i :: Oldest(edgePos) <= i < edgePos ==> edges[i % MAX_EDGES] == history[i]
    }

    constructor ()
      ensures Valid() && history == [] && fresh(edges)
    {
      edges := new Edge[MAX_EDGES](_ => Edge(0, 0, 0, 0, ""));
      edgePos := 0;
      history := [];
    }

    method RememberEdge(src: u32, dst: u32, code: u32, srcName: string, ts: u64)
      requires Valid()
      modifies this, edges
      ensures Valid()
      ensures history == old(history) + [Edge(ts, src, dst, code, srcName)]
    {
      edges[edgePos % MAX_EDGES] := Edge(ts, src, dst, code, srcName);
      edgePos := edgePos + 1;
      history := history + [Edge(ts, src, dst, code, srcName)];
    }

    method FindRecentEdge(pid: u32, ts: u64) returns (found: Option<Edge>)
      requires Valid()
      ensures found == Newest(history, Oldest(|history|), |history|, pid, ts)
    {
      for i := 0 to MAX_EDGES
        invariant i <= edgePos
        invariant Newest(history, Oldest(edgePos), edgePos, pid, ts) == Newest(history, Oldest(edgePos), edgePos - i, pid, ts)
      {
        var idx := edgePos - 1 - i;
        if idx < 0 {
          break;
        }
        var e := edges[idx % MAX_EDGES];
        if e.src == pid && ts >= e.ts && ts - e.ts <= CHAIN_WINDOW_NS {
          return Some(e);
        }
      }
      return None;
    }

    /** The consumer's dispatch; the names come from /proc and from the window manager. */
    method HandleEvent(e: CamEvent, appName: string, foreground: string) returns (note: Note)
      requires Valid()
      modifies this, edges
      ensures Valid()
      ensures history == if e.kind == DelegationEdge then old(history) + [EdgeOf(e, appName)] else old(history)
      ensures note == NoteOf(old(history), e, appName, foreground)
    {
      note := NoNote;
      if e.kind == DelegationEdge {
        RememberEdge(e.pid, e.extra1 % U32, e.extra2 % U32, appName, e.timestamp);
        if foreground != "" && foreground != appName && Contains(appName, "gms.ui") {
          note := Chain(foreground, appName);
        }
      } else if e.kind == BinderCall {
        var edge := FindRecentEdge(e.pid, e.timestamp);
        if edge.Some? && foreground != "" && foreground != appName {
          note := Chain(foreground, appName);
        }
      } else if e.kind != AppSession {
        var edge := FindRecentEdge(e.pid, e.timestamp);
        if edge.Some? {
          note := Link(edge.value.srcName);
        }
      }
    }

    /** A batch of queued events, in the order the probes emitted them; `app` and `foreground` are the names read
        while each is handled. */
    method Poll(events: seq<CamEvent>, app: nat -> string, foreground: nat -> string) returns (notes: seq<Note>)
      requires Valid()
      modifies this, edges
      ensures Valid() && |notes| == |events|
      ensures history == HistoryAfter(old(history), events, |events|, app)
      ensures Noted(old(history), events, notes, app, foreground)
    {
      notes := [];
      for i := 0 to |events|
        invariant Valid() && |notes| == i && history == HistoryAfter(old(history), events, i, app)
        invariant Noted(old(history), events, notes, app, foreground)
      {
        var note := HandleEvent(events[i], app(i), foreground(i));
        NotedSnoc(old(history), events, notes, note, app, foreground);
        notes := notes + [note];
      }
    }
  }

  /** Each note is the one its event deserves, given the edges received before it. */
  ghost predicate Noted(h: seq<Edge>, events: seq<CamEvent>, notes: seq<Note>, app: nat -> string, foreground: nat -> string) {
    && |notes| <= |events|
    && forall i :: 0 <= i < |notes| ==> NotedAt(h, events, notes[i], i, app, foreground)
  }

  ghost predicate NotedAt(h: seq<Edge>, events: seq<CamEvent>, note: Note, i: nat, app: nat -> string, foreground: nat -> string)
    requires i < |events|
  {
    note == NoteOf(HistoryAfter(h, events, i, app), events[i], app(i), foreground(i))
  }

  lemma NotedSnoc(h: seq<Edge>, events: seq<CamEvent>, notes: seq<Note>, note: Note, app: nat -> string, foreground: nat -> string)
    requires Noted(h, events, notes, app, foreground) && |notes| < |events|
    requires NotedAt(h, events, note, |notes|, app, foreground)
    ensures Noted(h, events, notes + [note], app, foreground)
  {
    var longer := notes + [note];
    forall i | 0 <= i < |longer| ensures NotedAt(h, events, longer[i], i, app, foreground) {
      if i < |notes| { assert longer[i] == notes[i]; }
    }
  }

  // ---- when the ring is as good as the whole history ----

  ghost predicate Sorted(h: seq<Edge>) {
    forall i, j :: 0 <= i <= j < |h| ==> h[i].ts <= h[j].ts
  }

  /** Edges of one caller are at least the de-duplication window apart. */
  ghost predicate Spaced(h: seq<Edge>) {
    forall i, j :: 0 <= i < j < |h| && h[i].src == h[j].src ==> h[i].ts + DEDUP_WINDOW_NS <= h[j].ts
  }

  ghost function CallersWithin(h: seq<Edge>, ts: u64): set<u32> {
    set e | e in h && e.ts <= ts <= e.ts + CHAIN_WINDOW_NS :: e.src
  }

  /** Index of the newest fitting edge in h[..hi]. */
  ghost function NewestAt(h: seq<Edge>, hi: nat, pid: u32, ts: u64): (m: Option<nat>)
    requires hi <= |h|
    ensures m.Some? ==> m.value < hi && Fits(h[m.value], pid, ts)
    ensures forall i :: 0 <= i < hi && Fits(h[i], pid, ts) ==> m.Some? && i <= m.value
  {
    if hi == 0 then None
    else if Fits(h[hi - 1], pid, ts) then Some(hi - 1)
    else NewestAt(h, hi - 1, pid, ts)
  }

  lemma {:induction false} NewestByIndex(h: seq<Edge>, lo: nat, hi: nat, pid: u32, ts: u64)
    requires hi <= |h|
    ensures var m := NewestAt(h, hi, pid, ts);
            Newest(h, lo, hi, pid, ts) == if m.Some? && lo <= m.value then Some(h[m.value]) else None
    decreases hi
  {
    if lo < hi { NewestByIndex(h, lo, hi - 1, pid, ts); }
  }

  /** The bounded search agrees with the unbounded one exactly when no edge fits or the newest fitting one is still held. */
  lemma RingSearchExactWhen(h: seq<Edge>, pid: u32, ts: u64)
    ensures var m := NewestAt(h, |h|, pid, ts);
            Newest(h, Oldest(|h|), |h|, pid, ts) == SearchAll(h, pid, ts)
            <==> (m.Some? ==> |h| <= m.value + 64)
  {
    NewestByIndex(h, 0, |h|, pid, ts);
    NewestByIndex(h, Oldest(|h|), |h|, pid, ts);
  }

  ghost function CountOf(h: seq<Edge>, lo: nat, hi: nat, pids: set<u32>): (n: nat)
    requires hi <= |h|
  {
    if hi <= lo then 0 else CountOf(h, lo, hi - 1, pids) + if h[hi - 1].src in pids then 1 else 0
  }

  /** The n-th edge of one caller since `lo` is at least n - 1 gaps after the first time. */
  lemma {:induction false} OneCallerSpread(h: seq<Edge>, lo: nat, hi: nat, p: u32, from: nat)
    requires Spaced(h) && hi <= |h| && forall i :: lo <= i < hi ==> from <= h[i].ts
    ensures var n := CountOf(h, lo, hi, {p});
            n > 0 ==> exists i :: lo <= i < hi && h[i].src == p && from + (n - 1) * DEDUP_WINDOW_NS <= h[i].ts
    decreases hi
  {
    if lo < hi {
      OneCallerSpread(h, lo, hi - 1, p, from);
      if h[hi - 1].src == p && CountOf(h, lo, hi - 1, {p}) > 0 {
        var n := CountOf(h, lo, hi - 1, {p});
        var i :| lo <= i < hi - 1 && h[i].src == p && from + (n - 1) * DEDUP_WINDOW_NS <= h[i].ts;
        assert h[i].ts + DEDUP_WINDOW_NS <= h[hi - 1].ts;
      }
    }
  }

  lemma {:induction false} CountSplits(h: seq<Edge>, lo: nat, hi: nat, pids: set<u32>, p: u32)
    requires hi <= |h| && p in pids
    ensures CountOf(h, lo, hi, pids) == CountOf(h, lo, hi, pids - {p}) + CountOf(h, lo, hi, {p})
    decreases hi
  {
    if lo < hi { CountSplits(h, lo, hi - 1, pids, p); }
  }

  /** At most five edges per caller fit in the closed two-second window. */
  lemma {:induction false} FivePerCaller(h: seq<Edge>, lo: nat, hi: nat, pids: set<u32>, from: nat)
    requires Spaced(h) && hi <= |h| && forall i :: lo <= i < hi ==> from <= h[i].ts <= from + CHAIN_WINDOW_NS
    ensures CountOf(h, lo, hi, pids) <= 5 * |pids|
    decreases pids
  {
    if pids == {} {
      CountNone(h, lo, hi);
    } else {
      var p :| p in pids;
      CountSplits(h, lo, hi, pids, p);
      OneCallerSpread(h, lo, hi, p, from);
      FivePerCaller(h, lo, hi, pids - {p}, from);
    }
  }

  lemma {:induction false} CountNone(h: seq<Edge>, lo: nat, hi: nat)
    requires hi <= |h|
    ensures CountOf(h, lo, hi, {}) == 0
    decreases hi
  {
    if lo < hi { CountNone(h, lo, hi - 1); }
  }

  lemma {:induction false} CountEvery(h: seq<Edge>, lo: nat, hi: nat, pids: set<u32>)
    requires lo <= hi <= |h| && forall i :: lo <= i < hi ==> h[i].src in pids
    ensures CountOf(h, lo, hi, pids) == hi - lo
    decreases hi
  {
    if lo < hi { CountEvery(h, lo, hi - 1, pids); }
  }

  /** The ring loses nothing that matters while at most 13 distinct callers appear in the window:
      the newest fitting edge has at most 12 * 5 edges after it. */
  lemma RingLosesNothing(h: seq<Edge>, pid: u32, ts: u64)
    requires Sorted(h) && Spaced(h) && forall e <- h :: e.ts <= ts
    requires |CallersWithin(h, ts)| <= 13
    ensures Newest(h, Oldest(|h|), |h|, pid, ts) == SearchAll(h, pid, ts)
  {
    RingSearchExactWhen(h, pid, ts);
    var m := NewestAt(h, |h|, pid, ts);
    if m.Some? {
      var others := CallersWithin(h, ts) - {pid};
      assert h[m.value] in h;
      assert |others| <= 12;
      forall i | m.value < i < |h| ensures h[i].src in others && h[m.value].ts <= h[i].ts <= ts {
        assert h[i] in h;
        assert !Fits(h[i], pid, ts);
      }
      FivePerCaller(h, m.value + 1, |h|, others, h[m.value].ts);
      CountEvery(h, m.value + 1, |h|, others);
    }
  }

  /** A caller's only edge is lost once 64 others follow it. */
  lemma LoneEdgeOverwritten(h: seq<Edge>, pid: u32, ts: u64)
    requires |h| > MAX_EDGES && Fits(h[0], pid, ts)
    requires forall i :: 1 <= i < |h| ==> h[i].src != pid
    ensures Newest(h, Oldest(|h|), |h|, pid, ts) != SearchAll(h, pid, ts)
  {
    RingSearchExactWhen(h, pid, ts);
    var m := NewestAt(h, |h|, pid, ts);
    assert m.Some? && m.value == 0;
  }

  // ---- the whole pipeline: probes, the event queue, the consumer ----

  /** The history after the events of one probe firing have been handled. */
  ghost function HistoryAfterProbe(h: seq<Edge>, camserver: u32, c: Callers, p: Probe, name: string): seq<Edge> {
    HistoryAfter(h, Emits(camserver, c, p), |Emits(camserver, c, p)|, (k: nat) => name)
  }

  /** One probe firing adds one edge, exactly when its call is accepted and the ring buffer had room for the edge. */
  lemma EdgesOfProbe(h: seq<Edge>, camserver: u32, c: Callers, p: Probe, name: string)
    ensures HistoryAfterProbe(h, camserver, c, p, name) ==
            if Accepts(camserver, c, p) && p.edgeSlot then h + [Edge(p.now, p.pid, camserver, p.code, name)] else h
  {
    var events := Emits(camserver, c, p);
    var app := (k: nat) => name;
    assert |events| <= 2 && HistoryAfter(h, events, 0, app) == h;
    if |events| >= 1 {
      assert HistoryAfter(h, events, 1, app) == if events[0].kind == DelegationEdge then h + [EdgeOf(events[0], name)] else h;
    }
    if |events| == 2 { assert HistoryAfter(h, events, 2, app) == HistoryAfter(h, events, 1, app); }
  }

  /** The edges the consumer has received after `i` probe steps; `name` is what /proc said at each. */
  ghost function Received(camserver: u32, ps: seq<Probe>, i: nat, name: nat -> string): seq<Edge>
    requires i <= |ps|
  {
    if i == 0 then []
    else HistoryAfterProbe(Received(camserver, ps, i - 1, name), camserver, CallersAt(camserver, ps, i - 1), ps[i - 1], name(i - 1))
  }

  /** What a caller's table entry says about the edges received from that caller. */
  ghost predicate Backed(e: Edge, c: Callers) {
    && e.ts <= c.lastNs
    && if e.src in c.recent then e.ts <= c.recent[e.src] else |c.recent| >= MAX_CALLERS
  }

  ghost predicate Tracked(h: seq<Edge>, c: Callers) {
    && Sorted(h)
    && (forall i :: 0 <= i < |h| ==> Backed(h[i], c))
    && (forall i, j :: 0 <= i < j < |h| && h[i].src == h[j].src && h[j].src in c.recent
          ==> h[i].ts + DEDUP_WINDOW_NS <= h[j].ts)
  }

  /** An accepted call keeps the invariant of the edges before it, and leaves a gap to those of the same caller. */
  lemma TrackedAfterAccept(camserver: u32, h: seq<Edge>, c: Callers, p: Probe)
    requires Tracked(h, c) && Accepts(camserver, c, p) && c.lastNs <= p.now
    requires forall q <- c.recent :: c.recent[q] <= c.lastNs
    ensures Tracked(h, After(camserver, c, p))
    ensures p.pid in After(camserver, c, p).recent ==>
              forall i :: 0 <= i < |h| && h[i].src == p.pid ==> h[i].ts + DEDUP_WINDOW_NS <= p.now
  {
    RecentGrows(camserver, c, p);
    var c' := After(camserver, c, p);
    forall i | 0 <= i < |h| ensures Backed(h[i], c') {
      assert Backed(h[i], c);
    }
    forall i | p.pid in c'.recent && 0 <= i < |h| && h[i].src == p.pid
      ensures p.pid in c.recent && h[i].ts + DEDUP_WINDOW_NS <= p.now
    {
      assert Backed(h[i], c);
    }
  }

  lemma TrackedStep(camserver: u32, h: seq<Edge>, c: Callers, p: Probe, name: string)
    requires Tracked(h, c) && c.lastNs <= p.now
    requires forall q <- c.recent :: c.recent[q] <= c.lastNs
    ensures Tracked(HistoryAfterProbe(h, camserver, c, p, name), After(camserver, c, p))
  {
    EdgesOfProbe(h, camserver, c, p, name);
    if Accepts(camserver, c, p) {
      TrackedAfterAccept(camserver, h, c, p);
      NewEdgeTracked(h, After(camserver, c, p), Edge(p.now, p.pid, camserver, p.code, name));
    }
  }

  lemma {:induction false} ReceivedIsTracked(camserver: u32, ps: seq<Probe>, i: nat, name: nat -> string)
    requires Monotone(ps) && i <= |ps|
    ensures Tracked(Received(camserver, ps, i, name), CallersAt(camserver, ps, i))
    decreases i
  {
    if i > 0 {
      ReceivedIsTracked(camserver, ps, i - 1, name);
      LastIsNewest(camserver, ps, i - 1);
      TrackedStep(camserver, Received(camserver, ps, i - 1, name), CallersAt(camserver, ps, i - 1), ps[i - 1], name(i - 1));
    }
  }

  lemma NewEdgeTracked(h: seq<Edge>, c: Callers, e: Edge)
    requires Tracked(h, c) && e.ts == c.lastNs
    requires if e.src in c.recent then c.recent[e.src] == e.ts else |c.recent| >= MAX_CALLERS
    requires e.src in c.recent ==> forall i :: 0 <= i < |h| && h[i].src == e.src ==> h[i].ts + DEDUP_WINDOW_NS <= e.ts
    ensures Tracked(h + [e], c)
  {
    var h' := h + [e];
    forall i | 0 <= i < |h'| ensures Backed(h'[i], c) {
      if i < |h| { assert Backed(h[i], c); }
    }
  }

  lemma TrackedMeansSpaced(h: seq<Edge>, c: Callers)
    requires Tracked(h, c) && |c.recent| < MAX_CALLERS
    ensures Spaced(h) && forall e <- h :: e.ts <= c.lastNs
  {
    assert forall i :: 0 <= i < |h| ==> Backed(h[i], c);
  }

  /** End to end: in every run with a monotone clock whose caller table has not filled up, and with at most 13
      distinct callers in the window, the consumer's ring answers as the complete history would. */
  lemma ConsumerSearchComplete(camserver: u32, ps: seq<Probe>, i: nat, name: nat -> string, pid: u32, ts: u64)
    requires Monotone(ps) && i <= |ps| && (i > 0 ==> ps[i - 1].now <= ts)
    requires |CallersAt(camserver, ps, i).recent| < 1024
    requires |CallersWithin(Received(camserver, ps, i, name), ts)| <= 13
    ensures var h := Received(camserver, ps, i, name);
            Newest(h, Oldest(|h|), |h|, pid, ts) == SearchAll(h, pid, ts)
  {
    var h := Received(camserver, ps, i, name);
    ReceivedIsTracked(camserver, ps, i, name);
    LastIsNewest(camserver, ps, i);
    TrackedMeansSpaced(h, CallersAt(camserver, ps, i));
    RingLosesNothing(h, pid, ts);
  }

  /** The binder-call event of an accepted call always finds the edge emitted just before it. */
  lemma OwnEdgeFound(camserver: u32, c: Callers, p: Probe, h: seq<Edge>, name: string)
    requires Accepts(camserver, c, p) && p.edgeSlot
    ensures var h' := HistoryAfterProbe(h, camserver, c, p, name);
            Newest(h', Oldest(|h'|), |h'|, p.pid, p.now) == Some(Edge(p.now, p.pid, camserver, p.code, name))
  {
    EdgesOfProbe(h, camserver, c, p, name);
  }

  /** `e` is the edge of an app's call among the first `i` probes. */
  ghost predicate FromCall(e: Edge, camserver: u32, ps: seq<Probe>, i: nat, name: nat -> string)
    requires i <= |ps|
  {
    exists k :: 0 <= k < i && AppCall(camserver, ps[k]) && e == Edge(ps[k].now, ps[k].pid, camserver, ps[k].code, name(k))
  }

  lemma FromCallLater(e: Edge, camserver: u32, ps: seq<Probe>, i: nat, name: nat -> string)
    requires i < |ps| && FromCall(e, camserver, ps, i, name)
    ensures FromCall(e, camserver, ps, i + 1, name)
  {
    var k :| 0 <= k < i && AppCall(camserver, ps[k]) && e == Edge(ps[k].now, ps[k].pid, camserver, ps[k].code, name(k));
    assert 0 <= k < i + 1;
  }

  /** In every run, every edge received comes from an app's call to the camera server. */
  lemma {:induction false} EdgesFromAppCalls(camserver: u32, ps: seq<Probe>, i: nat, name: nat -> string)
    requires i <= |ps|
    ensures forall k :: 0 <= k < |Received(camserver, ps, i, name)| ==>
              FromCall(Received(camserver, ps, i, name)[k], camserver, ps, i, name)
    decreases i
  {
    if i > 0 {
      var h, c, p := Received(camserver, ps, i - 1, name), CallersAt(camserver, ps, i - 1), ps[i - 1];
      EdgesFromAppCalls(camserver, ps, i - 1, name);
      EdgesOfProbe(h, camserver, c, p, name(i - 1));
      var h' := Received(camserver, ps, i, name);
      forall k | 0 <= k < |h'| ensures FromCall(h'[k], camserver, ps, i, name) {
        if k < |h| { FromCallLater(h[k], camserver, ps, i - 1, name); } else { AcceptedIsAppCall(camserver, ps, i - 1); }
      }
    }
  }

  // ---- the notes, end to end ----

  /** The chain note an app deserves. */
  function ChainIf(deserved: bool, foreground: string, app: string): Note {
    if deserved then Chain(foreground, app) else NoNote
  }

  lemma EdgeEventNote(h: seq<Edge>, e: CamEvent, app: string, foreground: string)
    requires e.kind == DelegationEdge
    ensures NoteOf(h, e, app, foreground) ==
            ChainIf(foreground != "" && foreground != app && Contains(app, "gms.ui"), foreground, app)
  {
  }

  lemma CallEventNote(h: seq<Edge>, e: CamEvent, app: string, foreground: string)
    requires e.kind == BinderCall
    ensures NoteOf(h, e, app, foreground) ==
            ChainIf(foreground != "" && foreground != app && Newest(h, Oldest(|h|), |h|, e.pid, e.timestamp).Some?,
                    foreground, app)
  {
  }

  /** The two events of an accepted call, handled one after the other: the edge gets the chain note exactly when the
      foreground is known and is another app and the app's name contains "gms.ui", the call exactly when the foreground
      is known and is another app. */
  lemma CallNotes(camserver: u32, c: Callers, p: Probe, h: seq<Edge>, notes: seq<Note>, app: nat -> string, foreground: nat -> string)
    requires Accepts(camserver, c, p) && p.edgeSlot && p.callSlot
    requires |notes| == |Emits(camserver, c, p)| && Noted(h, Emits(camserver, c, p), notes, app, foreground)
    ensures |notes| == 2
    ensures notes[0] == ChainIf(foreground(0) != "" && foreground(0) != app(0) && Contains(app(0), "gms.ui"), foreground(0), app(0))
    ensures notes[1] == ChainIf(foreground(1) != "" && foreground(1) != app(1), foreground(1), app(1))
  {
    var events := Emits(camserver, c, p);
    var first := Edge(p.now, p.pid, camserver, p.code, app(0));
    assert NotedAt(h, events, notes[0], 0, app, foreground) && NotedAt(h, events, notes[1], 1, app, foreground);
    assert HistoryAfter(h, events, 0, app) == h && HistoryAfter(h, events, 1, app) == h + [first];
    EdgeEventNote(h, events[0], app(0), foreground(0));
    CallEventNote(h + [first], events[1], app(1), foreground(1));
  }

  /** When the edge was dropped, the call's note also needs an earlier edge of the same process. */
  lemma CallAloneNote(camserver: u32, c: Callers, p: Probe, h: seq<Edge>, notes: seq<Note>, app: nat -> string, foreground: nat -> string)
    requires Accepts(camserver, c, p) && !p.edgeSlot && p.callSlot
    requires |notes| == |Emits(camserver, c, p)| && Noted(h, Emits(camserver, c, p), notes, app, foreground)
    ensures |notes| == 1
    ensures notes[0] == ChainIf(foreground(0) != "" && foreground(0) != app(0)
                                && Newest(h, Oldest(|h|), |h|, p.pid, p.now).Some?, foreground(0), app(0))
  {
    var events := Emits(camserver, c, p);
    assert NotedAt(h, events, notes[0], 0, app, foreground);
    assert HistoryAfter(h, events, 0, app) == h;
    CallEventNote(h, events[0], app(0), foreground(0));
  }

  /** A camera session gets no note, whatever was received before. */
  lemma SessionUnnoted(camserver: u32, c: Callers, p: Probe, h: seq<Edge>, app: string, foreground: string)
    requires p.ContextState?
    ensures forall e <- Emits(camserver, c, p) :: NoteOf(h, e, app, foreground) == NoNote
  {
  }

  /** The newest accepted call of a process whose edge found room. */
  ghost function NewestCall(camserver: u32, ps: seq<Probe>, j: nat, pid: u32): (m: Option<nat>)
    requires j <= |ps|
    ensures m.Some? ==> m.value < j
    decreases j
  {
    if j == 0 then None
    else if AcceptedAt(camserver, ps, j - 1) && ps[j - 1].edgeSlot && ps[j - 1].pid == pid then Some(j - 1)
    else NewestCall(camserver, ps, j - 1, pid)
  }

  /** Its edge, if the call is at most two seconds before `ts`. */
  ghost function EdgeWithin(camserver: u32, ps: seq<Probe>, m: Option<nat>, ts: u64, name: nat -> string): Option<Edge>
    requires m.Some? ==> m.value < |ps| && ps[m.value].BinderTransaction?
  {
    if m.Some? && ts <= ps[m.value].now + 2_000_000_000
    then Some(Edge(ps[m.value].now, ps[m.value].pid, camserver, ps[m.value].code, name(m.value))) else None
  }

  lemma {:induction false} NewestCallIsCall(camserver: u32, ps: seq<Probe>, j: nat, pid: u32)
    requires j <= |ps| && NewestCall(camserver, ps, j, pid).Some?
    ensures AppCall(camserver, ps[NewestCall(camserver, ps, j, pid).value])
    decreases j
  {
    if AcceptedAt(camserver, ps, j - 1) && ps[j - 1].edgeSlot && ps[j - 1].pid == pid {
      AcceptedIsAppCall(camserver, ps, j - 1);
    } else {
      NewestCallIsCall(camserver, ps, j - 1, pid);
    }
  }

  /** A search over the history and one more edge. */
  lemma SearchSnoc(h: seq<Edge>, e: Edge, pid: u32, ts: u64)
    ensures SearchAll(h + [e], pid, ts) == if Fits(e, pid, ts) then Some(e) else SearchAll(h, pid, ts)
  {
    SearchPrefix(h, e, |h|, pid, ts);
  }

  lemma {:induction false} SearchPrefix(h: seq<Edge>, e: Edge, n: nat, pid: u32, ts: u64)
    requires n <= |h|
    ensures Newest(h + [e], 0, n, pid, ts) == Newest(h, 0, n, pid, ts)
    decreases n
  {
    if n > 0 { SearchPrefix(h, e, n - 1, pid, ts); }
  }

  lemma {:induction false} SearchNothing(h: seq<Edge>, n: nat, pid: u32, ts: u64)
    requires n <= |h| && forall i :: 0 <= i < n ==> !Fits(h[i], pid, ts)
    ensures Newest(h, 0, n, pid, ts) == None
    decreases n
  {
    if n > 0 { SearchNothing(h, n - 1, pid, ts); }
  }

  /** The search over everything received finds the newest accepted call of the process, told by the probes. */
  lemma {:induction false} SearchTellsNewestCall(camserver: u32, ps: seq<Probe>, j: nat, name: nat -> string, pid: u32, ts: u64)
    requires Monotone(ps) && j <= |ps| && (j > 0 ==> ps[j - 1].now <= ts)
    requires NewestCall(camserver, ps, j, pid).Some? ==> ps[NewestCall(camserver, ps, j, pid).value].BinderTransaction?
    ensures SearchAll(Received(camserver, ps, j, name), pid, ts)
         == EdgeWithin(camserver, ps, NewestCall(camserver, ps, j, pid), ts, name)
    decreases j
  {
    if j > 0 {
      var h, c, p := Received(camserver, ps, j - 1, name), CallersAt(camserver, ps, j - 1), ps[j - 1];
      EdgesOfProbe(h, camserver, c, p, name(j - 1));
      if Accepts(camserver, c, p) && p.edgeSlot {
        var e := Edge(p.now, p.pid, camserver, p.code, name(j - 1));
        SearchSnoc(h, e, pid, ts);
        if p.pid == pid {
          if !Fits(e, pid, ts) { OldEdgesDoNotFit(camserver, ps, j - 1, name, pid, ts); }
        } else {
          SearchTellsNewestCall(camserver, ps, j - 1, name, pid, ts);
        }
      } else {
        SearchTellsNewestCall(camserver, ps, j - 1, name, pid, ts);
      }
    }
  }

  lemma OldEdgesDoNotFit(camserver: u32, ps: seq<Probe>, j: nat, name: nat -> string, pid: u32, ts: u64)
    requires Monotone(ps) && j < |ps| && ts > ps[j].now + CHAIN_WINDOW_NS
    ensures SearchAll(Received(camserver, ps, j, name), pid, ts) == None
  {
    var h := Received(camserver, ps, j, name);
    ReceivedIsTracked(camserver, ps, j, name);
    LastIsNewest(camserver, ps, j);
    forall i | 0 <= i < |h| ensures !Fits(h[i], pid, ts) {
      assert Backed(h[i], CallersAt(camserver, ps, j));
    }
    SearchNothing(h, |h|, pid, ts);
  }

  /** End to end: the event of frame activity is linked to the name read when the newest accepted call of that process
      was handled, if that call is at most two seconds old, and gets no note otherwise; under the conditions of the
      search lemma and whatever names are read for the activity itself. */
  lemma ActivityNoteExactly(camserver: u32, ps: seq<Probe>, j: nat, name: nat -> string, app: string, foreground: string)
    requires Monotone(ps) && j < |ps| && ps[j].Activity? && ps[j].slot
    requires |CallersAt(camserver, ps, j).recent| < 1024
    requires |CallersWithin(Received(camserver, ps, j, name), ps[j].now)| <= 13
    ensures var events, m := Emits(camserver, CallersAt(camserver, ps, j), ps[j]), NewestCall(camserver, ps, j, ps[j].pid);
            && |events| == 1
            && NoteOf(Received(camserver, ps, j, name), events[0], app, foreground)
            == if m.Some? && ps[j].now <= ps[m.value].now + 2_000_000_000 then Link(name(m.value)) else NoNote
  {
    var h := Received(camserver, ps, j, name);
    if NewestCall(camserver, ps, j, ps[j].pid).Some? { NewestCallIsCall(camserver, ps, j, ps[j].pid); }
    ActivityEvent(camserver, CallersAt(camserver, ps, j), ps[j]);
    ConsumerSearchComplete(camserver, ps, j, name, ps[j].pid, ps[j].now);
    SearchTellsNewestCall(camserver, ps, j, name, ps[j].pid, ps[j].now);
    ActivityEventNote(h, CamEvent(ps[j].now, ps[j].pid, ps[j].uid, ps[j].kind, 0, 0), app, foreground);
  }

  lemma ActivityEventNote(h: seq<Edge>, e: CamEvent, app: string, foreground: string)
    requires e.kind != DelegationEdge && e.kind != BinderCall && e.kind != AppSession
    ensures var found := Newest(h, Oldest(|h|), |h|, e.pid, e.timestamp);
            NoteOf(h, e, app, foreground) == if found.Some? then Link(found.value.srcName) else NoNote
  {
  }

  // ---- fourteen callers ----

  /** Caller 1 makes one call, then 13 others make five each, half a second apart. */
  ghost function Round(i: nat): nat {
    if i <= 13 then 0 else if i <= 26 then 1 else if i <= 39 then 2 else if i <= 52 then 3 else 4
  }

  ghost function CrowdTime(i: nat): u64 { Round(i) * DEDUP_WINDOW_NS }

  ghost function CrowdPid(i: nat): (p: u32)
    requires i < 66
    ensures 1 <= p <= 14
  {
    if i == 0 then 1 else i + 1 - 13 * Round(i)
  }

  ghost function CrowdCall(camserver: u32, i: nat): Probe
    requires 0 < camserver < 0x8000_0000 && i < 66
  {
    BinderTransaction(CrowdTime(i), CrowdPid(i), FIRST_APP_UID, 0, camserver, 0, true, true)
  }

  ghost function Crowd(camserver: u32): (ps: seq<Probe>)
    requires 0 < camserver < 0x8000_0000
    ensures |ps| == 66 && forall i :: 0 <= i < 66 ==> ps[i] == CrowdCall(camserver, i)
  {
    seq(66, i requires 0 <= i < 66 => CrowdCall(camserver, i))
  }

  /** Calls of one caller are in different rounds. */
  lemma CrowdSpaced(i: nat, j: nat)
    requires i < j < 66
    ensures CrowdTime(i) <= CrowdTime(j)
    ensures CrowdPid(i) == CrowdPid(j) ==> CrowdTime(i) + DEDUP_WINDOW_NS <= CrowdTime(j)
    ensures CrowdPid(j) != 1
  {
  }

  /** A table entry is the time of an earlier call of its caller. */
  ghost predicate CalledAt(pid: u32, time: u64, n: nat)
    requires n <= 66
  {
    1 <= pid <= 14 && exists j :: 0 <= j < n && CrowdPid(j) == pid && time == CrowdTime(j)
  }

  ghost predicate CrowdTable(c: Callers, n: nat)
    requires n <= 66
  {
    forall p <- c.recent :: CalledAt(p, c.recent[p], n)
  }

  /** The history is the calls so far, each as the edge the camera server's caller makes. */
  ghost predicate CrowdHistory(h: seq<Edge>, camserver: u32, n: nat, name: nat -> string)
    requires n <= 66
  {
    |h| == n && forall i :: 0 <= i < n ==> h[i] == Edge(CrowdTime(i), CrowdPid(i), camserver, 0, name(i))
  }

  /** The pids 1 to n. */
  ghost function Pids(n: nat): (s: set<u32>)
    requires n < U32
    ensures |s| == n && forall p: u32 :: p in s <==> 1 <= p <= n
  {
    if n == 0 then {} else Pids(n - 1) + {n}
  }

  lemma FewCallers(c: Callers, n: nat)
    requires n <= 66 && CrowdTable(c, n)
    ensures |c.recent| <= 14
  {
    forall p | p in c.recent ensures p in Pids(14) {
      assert CalledAt(p, c.recent[p], n);
    }
    assert c.recent.Keys <= Pids(14);
    SubsetSize(c.recent.Keys, Pids(14));
    assert |c.recent| == |c.recent.Keys|;
  }

  lemma CalledBefore(pid: u32, time: u64, n: nat)
    requires n < 66 && CalledAt(pid, time, n)
    ensures CalledAt(pid, time, n + 1)
    ensures pid == CrowdPid(n) ==> time + DEDUP_WINDOW_NS <= CrowdTime(n)
  {
    var j :| 0 <= j < n && CrowdPid(j) == pid && time == CrowdTime(j);
    CrowdSpaced(j, n);
  }

  lemma CalledNow(n: nat)
    requires n < 66
    ensures CalledAt(CrowdPid(n), CrowdTime(n), n + 1)
  {
  }

  /** Every call of the crowd is accepted. */
  lemma CrowdAccepted(camserver: u32, c: Callers, n: nat)
    requires 0 < camserver < 0x8000_0000 && n < 66 && CrowdTable(c, n)
    ensures Accepts(camserver, c, CrowdCall(camserver, n))
    ensures CrowdTable(After(camserver, c, CrowdCall(camserver, n)), n + 1)
  {
    var p := CrowdCall(camserver, n);
    if p.pid in c.recent {
      CalledBefore(p.pid, c.recent[p.pid], n);
    }
    CalledNow(n);
    var c' := After(camserver, c, p);
    forall q | q in c'.recent ensures CalledAt(q, c'.recent[q], n + 1) {
      if q != p.pid || c'.recent == c.recent { CalledBefore(q, c.recent[q], n); }
    }
  }

  lemma {:induction false} CrowdTracked(camserver: u32, n: nat)
    requires 0 < camserver < 0x8000_0000 && n <= 66
    ensures CrowdTable(CallersAt(camserver, Crowd(camserver), n), n)
    decreases n
  {
    if n > 0 {
      CrowdTracked(camserver, n - 1);
      CrowdAccepted(camserver, CallersAt(camserver, Crowd(camserver), n - 1), n - 1);
    }
  }

  lemma CrowdStep(h: seq<Edge>, camserver: u32, c: Callers, n: nat, name: nat -> string)
    requires 0 < camserver < 0x8000_0000 && n < 66
    requires Accepts(camserver, c, CrowdCall(camserver, n)) && CrowdHistory(h, camserver, n, name)
    ensures CrowdHistory(HistoryAfterProbe(h, camserver, c, CrowdCall(camserver, n), name(n)), camserver, n + 1, name)
  {
    EdgesOfProbe(h, camserver, c, CrowdCall(camserver, n), name(n));
  }

  lemma {:induction false} CrowdReceived(camserver: u32, n: nat, name: nat -> string)
    requires 0 < camserver < 0x8000_0000 && n <= 66
    ensures CrowdHistory(Received(camserver, Crowd(camserver), n, name), camserver, n, name)
    decreases n
  {
    if n > 0 {
      var ps, c := Crowd(camserver), CallersAt(camserver, Crowd(camserver), n - 1);
      CrowdReceived(camserver, n - 1, name);
      CrowdTracked(camserver, n - 1);
      CrowdAccepted(camserver, c, n - 1);
      CrowdStep(Received(camserver, ps, n - 1, name), camserver, c, n - 1, name);
    }
  }

  /** The bound of 13 is exact: a run of probes with 14 callers and a nearly empty caller table after which the ring
      has lost the one edge that fits. */
  lemma FourteenCallersOverflow(camserver: u32, name: nat -> string)
    requires 0 < camserver < 0x8000_0000
    ensures var ps, ts := Crowd(camserver), CHAIN_WINDOW_NS;
            var h := Received(camserver, ps, 66, name);
            && Monotone(ps) && ps[65].now <= ts
            && |CallersAt(camserver, ps, 66).recent| <= 14
            && (forall e <- h :: 1 <= e.src <= 14)
            && Newest(h, Oldest(|h|), |h|, 1, ts) != SearchAll(h, 1, ts)
  {
    var ps := Crowd(camserver);
    var h := Received(camserver, ps, 66, name);
    CrowdReceived(camserver, 66, name);
    CrowdTracked(camserver, 66);
    FewCallers(CallersAt(camserver, ps, 66), 66);
    forall i, j | 0 <= i <= j < 66 ensures ps[i].now <= ps[j].now {
      if i < j { CrowdSpaced(i, j); }
    }
    forall i | 1 <= i < 66 ensures h[i].src != 1 {
      CrowdSpaced(0, i);
    }
    LoneEdgeOverwritten(h, 1, CHAIN_WINDOW_NS);
  }
}
