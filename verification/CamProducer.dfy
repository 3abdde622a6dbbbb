/** Camera tracing, kernel side: caller de-duplication and the attribution of camera sessions.
    Each probe is one atomic step that reads the clock once. */
module CamProducer {
  import opened Prelude

  const MATCH_WINDOW_NS: nat := 2_000_000_000
  const DEDUP_WINDOW_NS: nat := 500_000_000
  const MAX_CALLERS: nat := 1024
  const FIRST_APP_UID: nat := 10000

  datatype Kind = BinderCall | AppSession | FrameQbuf | FrameDqbuf | FrameDone | CaptureRequest | DelegationEdge

  type FrameKind = k: Kind | k.FrameQbuf? || k.FrameDqbuf? || k.FrameDone? || k.CaptureRequest? witness FrameQbuf

  datatype CamEvent = CamEvent(timestamp: u64, pid: u32, uid: u32, kind: Kind, extra1: u64, extra2: u64)

  /** One firing of a probe; the slots say whether the ring buffer had room for each event it emits. */
  datatype Probe =
    | BinderTransaction(now: u64, pid: u32, uid: u32, reply: s32, toProc: s32, code: u32, edgeSlot: bool, callSlot: bool)
    | ContextState(now: u64, pid: u32, uid: u32, slot: bool)
    | Activity(now: u64, pid: u32, uid: u32, kind: FrameKind, slot: bool)

  /** The three maps `recent_caller`, `last_caller` and `last_caller_ns`. */
  datatype Callers = Callers(recent: map<u32, u64>, last: u32, lastNs: u64)

  const NO_CALLERS := Callers(map[], 0, 0)

  /** An outbound call by an app to the camera server. */
  predicate Qualifies(camserver: u32, p: Probe) {
    && p.BinderTransaction?
    && p.reply == 0
    && camserver != 0
    && p.toProc % U32 == camserver
    && p.pid != 0
    && p.uid >= FIRST_APP_UID
  }

  predicate Accepts(camserver: u32, c: Callers, p: Probe) {
    && Qualifies(camserver, p)
    && (p.pid in c.recent ==> Elapsed(p.now, c.recent[p.pid]) >= DEDUP_WINDOW_NS)
  }

  function After(camserver: u32, c: Callers, p: Probe): Callers {
    if !Accepts(camserver, c, p) then c
    else Callers(if p.pid in c.recent || |c.recent| < MAX_CALLERS then c.recent[p.pid := p.now] else c.recent, p.pid, p.now)
  }

  /** The pid a session event is attributed to: the last caller while fresh, otherwise the current process. */
  function Attributed(c: Callers, now: u64, pid: u32): u32 {
    if c.last != 0 && Elapsed(now, c.lastNs) <= MATCH_WINDOW_NS then c.last else pid
  }

  function Emits(camserver: u32, c: Callers, p: Probe): seq<CamEvent> {
    match p
    case BinderTransaction(now, pid, uid, _, _, code, edgeSlot, callSlot) =>
      if !Accepts(camserver, c, p) then []
      else (if edgeSlot then [CamEvent(now, pid, uid, DelegationEdge, camserver, code)] else [])
           + (if callSlot then [CamEvent(now, pid, uid, BinderCall, camserver, code)] else [])
    case ContextState(now, pid, uid, slot) =>
      if slot then [CamEvent(now, Attributed(c, now, pid), uid, AppSession, 0, Elapsed(now, c.lastNs))] else []
    case Activity(now, pid, uid, kind, slot) =>
      if slot then [CamEvent(now, pid, uid, kind, 0, 0)] else []
  }

  class CamTracer {
    const camserver: u32
    var recent: map<u32, u64>
    var last: u32
    var lastNs: u64

    function State(): Callers
      reads this
    {
      Callers(recent, last, lastNs)
    }

    constructor (camserver: u32)
      ensures this.camserver == camserver && State() == NO_CALLERS
    {
      this.camserver := camserver;
      recent, last, lastNs := map[], 0, 0;
    }

    method RememberCaller(pid: u32, now: u64)
      modifies this
      ensures last == pid && lastNs == now
      ensures recent == if pid in old(recent) || |old(recent)| < MAX_CALLERS then old(recent)[pid := now] else old(recent)
    {
      if pid in recent || |recent| < MAX_CALLERS {
        recent := recent[pid := now];
      }
      last, lastNs := pid, now;
    }

    /** Returns pid 0 when nobody called within the match window. */
    method GetLastCaller(now: u64) returns (pid: u32, age: u64)
      ensures age == Elapsed(now, lastNs)
      ensures pid == if age <= MATCH_WINDOW_NS then last else 0
    {
      age := Elapsed(now, lastNs);
      if age > MATCH_WINDOW_NS {
        return 0, age;
      }
      return last, age;
    }

    method TraceBinderTransaction(p: Probe) returns (events: seq<CamEvent>)
      requires p.BinderTransaction?
      modifies this
      ensures State() == After(camserver, old(State()), p)
      ensures events == Emits(camserver, old(State()), p)
    {
      events := [];
      if p.reply != 0 || camserver == 0 || p.toProc % U32 != camserver || p.pid == 0 || p.uid < FIRST_APP_UID {
        return;
      }
      if p.pid in recent && Elapsed(p.now, recent[p.pid]) < DEDUP_WINDOW_NS {
        return;
      }
      RememberCaller(p.pid, p.now);
      if p.edgeSlot {
        events := events + [CamEvent(p.now, p.pid, p.uid, DelegationEdge, camserver, p.code)];
      }
      if p.callSlot {
        events := events + [CamEvent(p.now, p.pid, p.uid, BinderCall, camserver, p.code)];
      }
    }

    method TraceContextState(p: Probe) returns (events: seq<CamEvent>)
      requires p.ContextState?
      ensures events == Emits(camserver, State(), p)
    {
      var inferred, age := GetLastCaller(p.now);
      if inferred == 0 {
        inferred := p.pid;
      }
      events := if p.slot then [CamEvent(p.now, inferred, p.uid, AppSession, 0, age)] else [];
    }
  }

  // ---- runs ----

  ghost predicate Monotone(ps: seq<Probe>) {
    forall i, j :: 0 <= i <= j < |ps| ==> ps[i].now <= ps[j].now
  }

  ghost function CallersAt(camserver: u32, ps: seq<Probe>, i: nat): Callers
    requires i <= |ps|
  {
    if i == 0 then NO_CALLERS else After(camserver, CallersAt(camserver, ps, i - 1), ps[i - 1])
  }

  ghost predicate AcceptedAt(camserver: u32, ps: seq<Probe>, i: nat)
    requires i < |ps|
  {
    Accepts(camserver, CallersAt(camserver, ps, i), ps[i])
  }

  /** The latest accepted call before step `i`: what the last-caller maps stand for. */
  ghost function LatestAccepted(camserver: u32, ps: seq<Probe>, i: nat): (m: Option<nat>)
    requires i <= |ps|
    ensures m.Some? ==> m.value < i && AcceptedAt(camserver, ps, m.value)
    ensures forall j :: 0 <= j < i && AcceptedAt(camserver, ps, j) ==> m.Some? && j <= m.value
  {
    if i == 0 then None
    else if AcceptedAt(camserver, ps, i - 1) then Some(i - 1)
    else LatestAccepted(camserver, ps, i - 1)
  }

  lemma {:induction false} LastCallerIsLatest(camserver: u32, ps: seq<Probe>, i: nat)
    requires i <= |ps|
    ensures var c, m := CallersAt(camserver, ps, i), LatestAccepted(camserver, ps, i);
            match m
            case None => c == NO_CALLERS
            case Some(m) => c.last == ps[m].pid && c.last != 0 && c.lastNs == ps[m].now
    decreases i
  {
    if i > 0 { LastCallerIsLatest(camserver, ps, i - 1); }
  }

  /** Every remembered time is at most the last one, which is at most the clock. */
  lemma {:induction false} LastIsNewest(camserver: u32, ps: seq<Probe>, i: nat)
    requires Monotone(ps) && i <= |ps|
    ensures var c := CallersAt(camserver, ps, i);
            && (forall p <- c.recent :: c.recent[p] <= c.lastNs)
            && c.lastNs <= (if i == 0 then 0 else ps[i - 1].now)
            && (c.last in c.recent ==> c.recent[c.last] == c.lastNs)
            && (|c.recent| < MAX_CALLERS && c.recent != map[] ==> c.last in c.recent)
            && |c.recent| <= MAX_CALLERS
    decreases i
  {
    if i > 0 {
      LastIsNewest(camserver, ps, i - 1);
      var c, c' := CallersAt(camserver, ps, i - 1), CallersAt(camserver, ps, i);
      assert c'.recent.Keys <= c.recent.Keys + {ps[i - 1].pid};
      RecentGrows(camserver, c, ps[i - 1]);
    }
  }

  lemma RecentGrows(camserver: u32, c: Callers, p: Probe)
    ensures var c' := After(camserver, c, p);
            && c.recent.Keys <= c'.recent.Keys
            && |c.recent| <= |c'.recent|
            && (c'.recent != c.recent && p.pid in c.recent ==> |c'.recent| == |c.recent|)
            && (|c.recent| <= MAX_CALLERS ==> |c'.recent| <= MAX_CALLERS)
  {
    var c' := After(camserver, c, p);
    assert |c.recent| == |c.recent.Keys| && |c'.recent| == |c'.recent.Keys|;
    if Accepts(camserver, c, p) && p.pid in c.recent {
      assert c'.recent.Keys == c.recent.Keys;
    } else if Accepts(camserver, c, p) && |c.recent| < MAX_CALLERS {
      assert c'.recent.Keys == c.recent.Keys + {p.pid};
    }
  }

  /** While the table is not full, the last-caller maps are the argmax and max of `recent_caller`. */
  lemma LastIsArgmax(camserver: u32, ps: seq<Probe>, i: nat)
    requires Monotone(ps) && i <= |ps|
    requires 0 < |CallersAt(camserver, ps, i).recent| < 1024
    ensures var c := CallersAt(camserver, ps, i);
            c.last in c.recent && c.recent[c.last] == c.lastNs && forall p <- c.recent :: c.recent[p] <= c.lastNs
  {
    LastIsNewest(camserver, ps, i);
  }

  /** A caller refused by a full table is never de-duplicated afterwards. */
  lemma {:induction false} FullTableNeverSuppresses(camserver: u32, ps: seq<Probe>, a: nat, i: nat, pid: u32)
    requires a <= i <= |ps|
    requires var c := CallersAt(camserver, ps, a); pid !in c.recent && |c.recent| >= 1024
    ensures var c := CallersAt(camserver, ps, i); pid !in c.recent && |c.recent| >= 1024
    ensures i < |ps| && ps[i].pid == pid && AppCall(camserver, ps[i]) ==> AcceptedAt(camserver, ps, i)
    decreases i
  {
    if a < i {
      FullTableNeverSuppresses(camserver, ps, a, i - 1, pid);
      RecentGrows(camserver, CallersAt(camserver, ps, i - 1), ps[i - 1]);
    }
  }

  // ---- who is a caller ----

  /** An outbound binder call by an app process to the camera server, told by the fields of the trace point. */
  ghost predicate AppCall(camserver: u32, p: Probe) {
    && p.BinderTransaction? && p.reply == 0
    && camserver > 0 && (if p.toProc < 0 then p.toProc + 0x1_0000_0000 else p.toProc) == camserver
    && p.pid > 0 && p.uid >= 10000
  }

  /** An event that tells of a call. */
  predicate TellsOfCall(e: CamEvent) { e.kind == DelegationEdge || e.kind == BinderCall }

  /** Any other probe changes none of the maps and tells of no call. */
  lemma OthersLeaveNoTrace(camserver: u32, c: Callers, p: Probe)
    requires !AppCall(camserver, p)
    ensures After(camserver, c, p) == c && forall e <- Emits(camserver, c, p) :: !TellsOfCall(e)
  {
  }

  /** An app's call is remembered and told of if the app has not been seen in the last half second, and leaves no trace
      otherwise. */
  lemma AppCallTraced(camserver: u32, c: Callers, p: Probe)
    requires AppCall(camserver, p) && (p.pid in c.recent ==> c.recent[p.pid] <= p.now)
    ensures var c', events := After(camserver, c, p), Emits(camserver, c, p);
            if p.pid in c.recent && p.now - c.recent[p.pid] < 500_000_000 then c' == c && events == []
            else
              && c'.last == p.pid && c'.lastNs == p.now
              && events == (if p.edgeSlot then [CamEvent(p.now, p.pid, p.uid, DelegationEdge, camserver, p.code)] else [])
                        + (if p.callSlot then [CamEvent(p.now, p.pid, p.uid, BinderCall, camserver, p.code)] else [])
  {
  }

  /** The event of frame activity is about the current process. */
  lemma ActivityEvent(camserver: u32, c: Callers, p: Probe)
    requires p.Activity?
    ensures Emits(camserver, c, p) == if p.slot then [CamEvent(p.now, p.pid, p.uid, p.kind, 0, 0)] else []
  {
  }

  lemma AcceptedIsAppCall(camserver: u32, ps: seq<Probe>, i: nat)
    requires i < |ps| && AcceptedAt(camserver, ps, i)
    ensures AppCall(camserver, ps[i])
  {
  }

  /** In every run, whoever a camera session is attributed to is the current process or made an app's call to the
      camera server at most two seconds before. */
  lemma AttributedToAppCall(camserver: u32, ps: seq<Probe>, j: nat)
    requires Monotone(ps) && j < |ps| && ps[j].ContextState?
    ensures var pid := Attributed(CallersAt(camserver, ps, j), ps[j].now, ps[j].pid);
            pid == ps[j].pid
            || exists i :: 0 <= i < j && AppCall(camserver, ps[i]) && ps[i].pid == pid && ps[i].now + 2_000_000_000 >= ps[j].now
  {
    AttributionExact(camserver, ps, j);
    var m := LatestAccepted(camserver, ps, j);
    if m.Some? { AcceptedIsAppCall(camserver, ps, m.value); }
  }

  /** The session event carries the attributed pid and the age of the latest accepted call; without one the age is the
      clock. */
  lemma SessionEvent(camserver: u32, ps: seq<Probe>, j: nat)
    requires Monotone(ps) && j < |ps| && ps[j].ContextState?
    ensures var m := LatestAccepted(camserver, ps, j);
            var known := m.Some? && ps[m.value].now + 2_000_000_000 >= ps[j].now;
            Emits(camserver, CallersAt(camserver, ps, j), ps[j]) ==
            if ps[j].slot
            then [CamEvent(ps[j].now, if known then ps[m.value].pid else ps[j].pid, ps[j].uid, AppSession, 0,
                           if m.Some? then ps[j].now - ps[m.value].now else ps[j].now)]
            else []
  {
    LastCallerIsLatest(camserver, ps, j);
    AttributionExact(camserver, ps, j);
  }

  // ---- how long attribution lasts ----

  /** A session goes to the latest accepted caller exactly when that call is at most 2 s old, and to the current process
      otherwise. */
  lemma AttributionExact(camserver: u32, ps: seq<Probe>, j: nat)
    requires Monotone(ps) && j < |ps| && ps[j].ContextState?
    ensures var m := LatestAccepted(camserver, ps, j);
            Attributed(CallersAt(camserver, ps, j), ps[j].now, ps[j].pid)
            == if m.Some? && ps[m.value].now + 2_000_000_000 >= ps[j].now then ps[m.value].pid else ps[j].pid
  {
    LastCallerIsLatest(camserver, ps, j);
  }

  /** Right after an app's call, accepted or suppressed, some accepted call is less than half a second old. */
  lemma CallKeepsFresh(camserver: u32, ps: seq<Probe>, i: nat)
    requires Monotone(ps) && i < |ps| && AppCall(camserver, ps[i])
    ensures var m := LatestAccepted(camserver, ps, i + 1); m.Some? && ps[i].now < ps[m.value].now + 500_000_000
  {
    LatestIsNotLate(camserver, ps, i);
    if !AcceptedAt(camserver, ps, i) {
      var c := CallersAt(camserver, ps, i);
      assert ps[i].pid in c.recent && c.recent[ps[i].pid] <= c.lastNs;
    }
  }

  lemma LatestIsNotLate(camserver: u32, ps: seq<Probe>, i: nat)
    requires Monotone(ps) && i < |ps|
    ensures var c, m := CallersAt(camserver, ps, i), LatestAccepted(camserver, ps, i);
            && (forall p <- c.recent :: c.recent[p] <= c.lastNs <= ps[i].now)
            && if m.Some? then c.lastNs == ps[m.value].now else c == NO_CALLERS
  {
    LastCallerIsLatest(camserver, ps, i);
    LastIsNewest(camserver, ps, i);
  }

  lemma {:induction false} LatestGrows(camserver: u32, ps: seq<Probe>, i: nat, j: nat)
    requires i <= j <= |ps| && LatestAccepted(camserver, ps, i).Some?
    ensures LatestAccepted(camserver, ps, j).Some?
    ensures LatestAccepted(camserver, ps, i).value <= LatestAccepted(camserver, ps, j).value
    decreases j
  {
    if i < j { LatestGrows(camserver, ps, i, j - 1); }
  }

  /** After any app's call, accepted or suppressed, every session step up to 1.5 s and 1 ns later is attributed to the
      latest accepted caller, whose call is at most 2 s old, and never falls back to the current process. */
  lemma AttributionGuaranteed(camserver: u32, ps: seq<Probe>, i: nat, j: nat)
    requires Monotone(ps) && i < j < |ps|
    requires AppCall(camserver, ps[i]) && ps[j].ContextState? && ps[j].now <= ps[i].now + 1_500_000_001
    ensures var m := LatestAccepted(camserver, ps, j);
            && m.Some?
            && ps[m.value].now + 2_000_000_000 >= ps[j].now
            && Attributed(CallersAt(camserver, ps, j), ps[j].now, ps[j].pid) == ps[m.value].pid
            && (ps[j].slot ==> Emits(camserver, CallersAt(camserver, ps, j), ps[j])[0].pid == ps[m.value].pid)
  {
    CallKeepsFresh(camserver, ps, i);
    LatestGrows(camserver, ps, i + 1, j);
    AttributionExact(camserver, ps, j);
  }

  /** One nanosecond later the guarantee fails: a suppressed call leaves the previous time stamp in place. */
  lemma GuaranteeTight(camserver: u32, app: u32, current: u32)
    requires 0 < camserver < 0x8000_0000 && app != 0 && current != app
    ensures exists ps: seq<Probe> ::
              && Monotone(ps) && |ps| == 3
              && AppCall(camserver, ps[1]) && ps[2].ContextState? && ps[2].now == ps[1].now + 1_500_000_002
              && Attributed(CallersAt(camserver, ps, 2), ps[2].now, current) == current != ps[1].pid
  {
    var ps := [
      BinderTransaction(0, app, FIRST_APP_UID, 0, camserver, 0, true, true),
      BinderTransaction(DEDUP_WINDOW_NS - 1, app, FIRST_APP_UID, 0, camserver, 0, true, true),
      ContextState(MATCH_WINDOW_NS + 1, current, 0, true)];
    assert CallersAt(camserver, ps, 0) == NO_CALLERS;
    assert CallersAt(camserver, ps, 1) == Callers(map[app := 0], app, 0);
    assert CallersAt(camserver, ps, 2) == Callers(map[app := 0], app, 0);
    assert Monotone(ps) && |ps| == 3;
    assert Qualifies(camserver, ps[1]);
  }
}
