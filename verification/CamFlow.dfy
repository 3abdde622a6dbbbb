/** Camera flow tracing: matching buffer-done events to the submissions they complete, and the open sessions. */
module CamFlow {
  import opened Prelude

  const MAX_PENDING: nat := 256
  const MAX_SESSIONS: nat := 64

  /** One firing of a probe; the slot says whether the ring buffer had room for its event. */
  datatype Probe =
    | Apply(now: u64, req: u64)
    | Done(now: u64, req: u64, slot: bool)
    | ContextState(now: u64, ctx: u64, state: u32, slot: bool)

  datatype FlowEvent =
    | BufferFilled(timestamp: u64, request: u64, latency: u64)
    | CameraOpen(timestamp: u64, camera: u32, state: u32)
    | CameraClose(timestamp: u64, camera: u32)

  function CameraOf(ctx: u64): u32 { ctx % U32 % 0x1_0000 }

  /** What a step means for the table of pending submissions. */
  datatype Fate = Stored | Overwrote | Rejected | Matched | Unmatched | Elsewhere

  function FateOf(pending: map<u64, u64>, p: Probe): Fate {
    if p.Apply? then
      if p.req in pending then Overwrote else if |pending| < MAX_PENDING then Stored else Rejected
    else if p.Done? then
      if p.req in pending then Matched else Unmatched
    else Elsewhere
  }

  /** req_submit_ts after a step: insertions into a full map fail, overwrites do not. */
  function PendingAfter(pending: map<u64, u64>, p: Probe): map<u64, u64> {
    var fate := FateOf(pending, p);
    if fate == Stored || fate == Overwrote then pending[p.req := p.now]
    else if fate == Matched then pending - {p.req}
    else pending
  }

  predicate Refused(sessions: map<u32, u64>, p: Probe)
    requires p.ContextState?
  {
    p.state != 0 && CameraOf(p.ctx) !in sessions && |sessions| >= MAX_SESSIONS
  }

  /** session_map after a step; only the start time of a session ever differs from zero. */
  function SessionsAfter(sessions: map<u32, u64>, p: Probe): map<u32, u64> {
    if !p.ContextState? || Refused(sessions, p) then sessions
    else if p.state != 0 then sessions[CameraOf(p.ctx) := p.now]
    else sessions - {CameraOf(p.ctx)}
  }

  function Emits(pending: map<u64, u64>, p: Probe): Option<FlowEvent> {
    match p
    case Apply(_, _) => None
    case Done(now, req, slot) =>
      if !slot then None
      else Some(BufferFilled(now, req, if req in pending then Elapsed(now, pending[req]) else 0))
    case ContextState(now, ctx, state, slot) =>
      if !slot then None
      else Some(if state == 0 then CameraClose(now, CameraOf(ctx)) else CameraOpen(now, CameraOf(ctx), state))
  }

  class FlowTracer {
    var pending: map<u64, u64>
    var sessions: map<u32, u64>

    constructor ()
      ensures pending == map[] && sessions == map[]
    {
      pending, sessions := map[], map[];
    }

    method ReqMgrApply(now: u64, req: u64)
      modifies this`pending
      ensures pending == PendingAfter(old(pending), Apply(now, req))
    {
      if req in pending || |pending| < MAX_PENDING {
        pending := pending[req := now];
      }
    }

    method BufDone(now: u64, req: u64, slot: bool) returns (event: Option<FlowEvent>)
      modifies this`pending
      ensures pending == PendingAfter(old(pending), Done(now, req, slot))
      ensures event == Emits(old(pending), Done(now, req, slot))
    {
      var latency := 0;
      if req in pending {
        latency := Elapsed(now, pending[req]);
        pending := pending - {req};
      }
      event := if slot then Some(BufferFilled(now, req, latency)) else None;
    }

    method OnContextState(now: u64, ctx: u64, state: u32, slot: bool) returns (event: Option<FlowEvent>)
      modifies this`sessions
      ensures sessions == SessionsAfter(old(sessions), ContextState(now, ctx, state, slot))
      ensures event == Emits(pending, ContextState(now, ctx, state, slot))
    {
      var key := ctx % U32 % 0x1_0000;
      if state != 0 {
        if key in sessions || |sessions| < MAX_SESSIONS {
          sessions := sessions[key := now];
        }
      } else {
        sessions := sessions - {key};
      }
      event := if !slot then None else Some(if state == 0 then CameraClose(now, key) else CameraOpen(now, key, state));
    }
  }

  // ---- runs ----

  ghost predicate Monotone(ps: seq<Probe>) {
    forall i, j :: 0 <= i <= j < |ps| ==> ps[i].now <= ps[j].now
  }

  ghost function PendingAt(ps: seq<Probe>, i: nat): map<u64, u64>
    requires i <= |ps|
  {
    if i == 0 then map[] else PendingAfter(PendingAt(ps, i - 1), ps[i - 1])
  }

  ghost function FateAt(ps: seq<Probe>, i: nat): Fate
    requires i < |ps|
  {
    FateOf(PendingAt(ps, i), ps[i])
  }

  /** How many of the first `i` steps had a given fate. */
  ghost function Tally(ps: seq<Probe>, i: nat, fate: Fate): nat
    requires i <= |ps|
  {
    if i == 0 then 0 else Tally(ps, i - 1, fate) + if FateAt(ps, i - 1) == fate then 1 else 0
  }

  ghost function Applies(ps: seq<Probe>, i: nat): nat
    requires i <= |ps|
  {
    if i == 0 then 0 else Applies(ps, i - 1) + if ps[i - 1].Apply? then 1 else 0
  }

  lemma PendingSize(pending: map<u64, u64>, p: Probe)
    ensures var n, n', fate := |pending|, |PendingAfter(pending, p)|, FateOf(pending, p);
            if fate == Stored then n' == n + 1 <= 256
            else if fate == Matched then n' == n - 1
            else n' == n && (fate == Rejected ==> n >= 256)
    ensures var fate := FateOf(pending, p); p.Apply? <==> fate == Stored || fate == Overwrote || fate == Rejected
  {
    var pending' := PendingAfter(pending, p);
    assert |pending| == |pending.Keys| && |pending'| == |pending'.Keys|;
    var fate := FateOf(pending, p);
    if fate == Stored || fate == Overwrote {
      assert pending'.Keys == pending.Keys + {p.req};
    } else if fate == Matched {
      assert pending'.Keys == pending.Keys - {p.req};
    }
  }

  /** Conservation, in every run: each submission is matched, still pending, overwritten or rejected,
      and the table never exceeds its capacity. */
  lemma {:induction false} SubmissionsConserved(ps: seq<Probe>, i: nat)
    requires i <= |ps|
    ensures Applies(ps, i)
         == Tally(ps, i, Matched) + |PendingAt(ps, i)| + Tally(ps, i, Overwrote) + Tally(ps, i, Rejected)
    ensures |PendingAt(ps, i)| <= 256
    decreases i
  {
    if i > 0 {
      hide FateOf, PendingAfter;
      SubmissionsConserved(ps, i - 1);
      PendingSize(PendingAt(ps, i - 1), ps[i - 1]);
    }
  }

  ghost predicate StoresAt(ps: seq<Probe>, j: nat, req: u64)
    requires j < |ps|
  {
    ps[j].Apply? && ps[j].req == req && FateAt(ps, j) != Rejected
  }

  ghost predicate CompletesAt(ps: seq<Probe>, j: nat, req: u64)
    requires j < |ps|
  {
    ps[j].Done? && ps[j].req == req
  }

  /** The apply whose time stamp the table holds for `req` after `i` steps, told from the history alone:
      the latest stored or overwriting apply, unless a done came after it. */
  ghost function Outstanding(ps: seq<Probe>, i: nat, req: u64): (m: Option<nat>)
    requires i <= |ps|
    ensures m.Some? ==> m.value < i
  {
    if i == 0 then None
    else if StoresAt(ps, i - 1, req) then Some(i - 1)
    else if CompletesAt(ps, i - 1, req) then None
    else Outstanding(ps, i - 1, req)
  }

  /** It is an apply, and nothing after it touches the request. */
  lemma {:induction false} OutstandingIsLatest(ps: seq<Probe>, i: nat, req: u64)
    requires i <= |ps| && Outstanding(ps, i, req).Some?
    ensures var m := Outstanding(ps, i, req).value;
            && StoresAt(ps, m, req)
            && forall j :: m < j < i ==> !StoresAt(ps, j, req) && !CompletesAt(ps, j, req)
    decreases i
  {
    if !StoresAt(ps, i - 1, req) && !CompletesAt(ps, i - 1, req) { OutstandingIsLatest(ps, i - 1, req); }
  }

  /** The table holds `req` exactly when an apply is outstanding, with its time. */
  ghost predicate EntryFits(pending: map<u64, u64>, ps: seq<Probe>, req: u64, m: Option<nat>) {
    (req in pending <==> m.Some?) && (m.Some? ==> m.value < |ps| && pending[req] == ps[m.value].now)
  }

  /** One entry of the table across one step. */
  lemma EntryStep(ps: seq<Probe>, i: nat, req: u64)
    requires i < |ps| && EntryFits(PendingAt(ps, i), ps, req, Outstanding(ps, i, req))
    ensures EntryFits(PendingAfter(PendingAt(ps, i), ps[i]), ps, req,
                      if StoresAt(ps, i, req) then Some(i) else if CompletesAt(ps, i, req) then None else Outstanding(ps, i, req))
  {
  }

  lemma EntryFollows(ps: seq<Probe>, i: nat, req: u64)
    requires 0 < i <= |ps| && EntryFits(PendingAt(ps, i - 1), ps, req, Outstanding(ps, i - 1, req))
    ensures EntryFits(PendingAt(ps, i), ps, req, Outstanding(ps, i, req))
  {
    hide PendingAfter, FateOf, FateAt, StoresAt, CompletesAt;
    EntryStep(ps, i - 1, req);
  }

  lemma {:induction false} PendingIsOutstanding(ps: seq<Probe>, i: nat, req: u64)
    requires i <= |ps|
    ensures EntryFits(PendingAt(ps, i), ps, req, Outstanding(ps, i, req))
    decreases i
  {
    if i > 0 {
      hide *;
      PendingIsOutstanding(ps, i - 1, req);
      EntryFollows(ps, i, req);
    }
  }

  /** A done step reports exactly the time since the latest stored apply of its request, or 0 if none is outstanding;
      without room for the event it reports nothing. */
  lemma LatencyExact(ps: seq<Probe>, j: nat)
    requires Monotone(ps) && j < |ps| && ps[j].Done?
    ensures var m := Outstanding(ps, j, ps[j].req);
            && (FateAt(ps, j) == Matched <==> m.Some?)
            && Emits(PendingAt(ps, j), ps[j])
            == if ps[j].slot then Some(BufferFilled(ps[j].now, ps[j].req, if m.Some? then ps[j].now - ps[m.value].now else 0))
               else None
  {
    PendingIsOutstanding(ps, j, ps[j].req);
  }

  /** No apply is consumed twice: different matched dones consume different applies. */
  lemma ConsumedOnce(ps: seq<Probe>, i: nat, j: nat)
    requires i < j < |ps| && ps[i].Done? && ps[j].Done?
    requires FateAt(ps, i) == Matched && FateAt(ps, j) == Matched
    ensures var m, n := Outstanding(ps, i, ps[i].req), Outstanding(ps, j, ps[j].req);
            m.Some? && n.Some? && m.value != n.value
  {
    PendingIsOutstanding(ps, i, ps[i].req);
    PendingIsOutstanding(ps, j, ps[j].req);
    OutstandingIsLatest(ps, i, ps[i].req);
    OutstandingIsLatest(ps, j, ps[j].req);
    assert CompletesAt(ps, i, ps[i].req);
  }

  // ---- sessions ----

  ghost predicate About(p: Probe, camera: u32) {
    p.ContextState? && CameraOf(p.ctx) == camera
  }

  /** The latest state step of a camera. */
  ghost function LatestState(ps: seq<Probe>, i: nat, camera: u32): (m: Option<nat>)
    requires i <= |ps|
    ensures m.Some? ==> m.value < i && About(ps[m.value], camera)
    ensures forall j :: 0 <= j < i && About(ps[j], camera) ==> m.Some? && j <= m.value
  {
    if i == 0 then None
    else if About(ps[i - 1], camera) then Some(i - 1)
    else LatestState(ps, i - 1, camera)
  }

  ghost function SessionsAt(ps: seq<Probe>, i: nat): map<u32, u64>
    requires i <= |ps|
  {
    if i == 0 then map[] else SessionsAfter(SessionsAt(ps, i - 1), ps[i - 1])
  }

  /** A camera is open exactly when its latest state step was non-zero and not refused by a full table,
      and its start time is that step's. */
  lemma {:induction false} SessionIsLatestState(ps: seq<Probe>, i: nat, camera: u32)
    requires i <= |ps|
    ensures var s, m := SessionsAt(ps, i), LatestState(ps, i, camera);
            && (camera in s <==> m.Some? && ps[m.value].state != 0 && !Refused(SessionsAt(ps, m.value), ps[m.value]))
            && (camera in s ==> s[camera] == ps[m.value].now)
    decreases i
  {
    if i > 0 { SessionIsLatestState(ps, i - 1, camera); }
  }

  /** What the events of state steps say, in the terms of the trace point: a zero state closes the camera of the low 16
      bits, any other opens it. */
  lemma StateEvents(pending: map<u64, u64>, now: u64, ctx: u64, state: u32)
    ensures Emits(pending, ContextState(now, ctx, state, true)) ==
            Some(if state == 0 then CameraClose(now, ctx % 0x1_0000) else CameraOpen(now, ctx % 0x1_0000, state))
    ensures Emits(pending, ContextState(now, ctx, state, false)) == None
  {
    var q := ctx / 0x1_0000_0000;
    assert ctx == 0x1_0000 * (0x1_0000 * q) + ctx % U32;
    ShiftedMod(ctx % U32, 0x1_0000 * q);
  }

  lemma ShiftedMod(r: nat, q: nat)
    ensures (0x1_0000 * q + r) % 0x1_0000 == r % 0x1_0000
  {
    assert r == 0x1_0000 * (r / 0x1_0000) + r % 0x1_0000;
    assert 0x1_0000 * q + r == 0x1_0000 * (q + r / 0x1_0000) + r % 0x1_0000;
  }

  /** In every run the events tell the truth: after a close event its camera has no session, after an open event it has
      one that began at the event, unless 64 other cameras were open. */
  lemma EventsTellSessions(ps: seq<Probe>, i: nat)
    requires i < |ps| && ps[i].ContextState? && ps[i].slot
    ensures var event, before, after := Emits(PendingAt(ps, i), ps[i]), SessionsAt(ps, i), SessionsAt(ps, i + 1);
            && event.Some?
            && (event.value.CameraClose? ==> event.value.camera !in after)
            && (event.value.CameraOpen? ==>
                  && event.value.state != 0
                  && if event.value.camera in before || |before| < 64
                     then event.value.camera in after && after[event.value.camera] == event.value.timestamp
                     else after == before)
  {
  }
}
