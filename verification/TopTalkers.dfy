/** pksniff, user side: the hashed per-source byte counter and the five largest sources. */
module TopTalkers {
  import opened Prelude

  const SLOTS: nat := 256
  const MAX_TALKERS: nat := 5
  const STATS_INTERVAL: int := 1

  /** Counters are unbounded here; 64-bit wrap-around would need 2^64 bytes of traffic. */
  datatype Talker = Talker(ip: u32, bytes: nat, pkts: nat)

  const NOBODY := Talker(0, 0, 0)

  /** What the statistics read of an event; ARP events have source 0. */
  datatype Pkt = Pkt(ip: u32, len: u32)

  // ---- one slot ----

  /** A slot after a packet that hashes to it: the first source keeps the slot for ever. */
  function Hit(t: Talker, p: Pkt): Talker {
    if t.ip == 0 || t.ip == p.ip then Talker(p.ip, t.bytes + p.len, t.pkts + 1) else t
  }

  ghost function SlotAt(h: seq<Pkt>, n: nat, s: nat): Talker
    requires n <= |h|
  {
    if n == 0 then NOBODY
    else if h[n - 1].ip % 256 == s then Hit(SlotAt(h, n - 1, s), h[n - 1])
    else SlotAt(h, n - 1, s)
  }

  /** Bytes and packets of one source among the first `n` packets. */
  ghost function Bytes(h: seq<Pkt>, n: nat, ip: u32): nat
    requires n <= |h|
  {
    if n == 0 then 0 else Bytes(h, n - 1, ip) + if h[n - 1].ip == ip then h[n - 1].len else 0
  }

  ghost function Packets(h: seq<Pkt>, n: nat, ip: u32): nat
    requires n <= |h|
  {
    if n == 0 then 0 else Packets(h, n - 1, ip) + if h[n - 1].ip == ip then 1 else 0
  }

  /** Where the first non-zero source of a slot arrived. */
  ghost function Takeover(h: seq<Pkt>, n: nat, s: nat): (k: Option<nat>)
    requires n <= |h|
    ensures k.Some? ==> k.value < n && h[k.value].ip != 0 && h[k.value].ip % 256 == s
    ensures forall i :: 0 <= i < n && h[i].ip != 0 && h[i].ip % 256 == s ==> k.Some? && k.value <= i
  {
    if n == 0 then None
    else
      var k := Takeover(h, n - 1, s);
      if k.Some? then k else if h[n - 1].ip != 0 && h[n - 1].ip % 256 == s then Some(n - 1) else None
  }

  lemma {:induction false} AbsentCountsNothing(h: seq<Pkt>, n: nat, ip: u32)
    requires n <= |h| && forall i :: 0 <= i < n ==> h[i].ip != ip
    ensures Bytes(h, n, ip) == 0 && Packets(h, n, ip) == 0
    decreases n
  {
    if n > 0 { AbsentCountsNothing(h, n - 1, ip); }
  }

  /** Every slot holds the totals of the first non-zero source that hashed to it, plus whatever packets with source 0
      the slot had counted before that source arrived (only slot 0 can have any). */
  lemma {:induction false} SlotExact(h: seq<Pkt>, n: nat, s: nat)
    requires n <= |h| && s < SLOTS
    ensures var k := Takeover(h, n, s);
            SlotAt(h, n, s) ==
            if k.None? then
              if s == 0 then Talker(0, Bytes(h, n, 0), Packets(h, n, 0)) else NOBODY
            else
              var ip := h[k.value].ip;
              var stray := if s == 0 then Talker(0, Bytes(h, k.value, 0), Packets(h, k.value, 0)) else NOBODY;
              Talker(ip, Bytes(h, n, ip) + stray.bytes, Packets(h, n, ip) + stray.pkts)
    decreases n
  {
    if n > 0 {
      SlotExact(h, n - 1, s);
      if Takeover(h, n - 1, s).None? && h[n - 1].ip != 0 && h[n - 1].ip % 256 == s {
        AbsentCountsNothing(h, n - 1, h[n - 1].ip);
      }
    }
  }

  /** Slots 1 to 255 hold exactly the totals of the first source that hashed to them. */
  lemma SlotHoldsFirstSource(h: seq<Pkt>, s: nat)
    requires 1 <= s < SLOTS
    ensures var k := Takeover(h, |h|, s);
            SlotAt(h, |h|, s) == if k.None? then NOBODY
                                 else Talker(h[k.value].ip, Bytes(h, |h|, h[k.value].ip), Packets(h, |h|, h[k.value].ip))
  {
    SlotExact(h, |h|, s);
  }

  // ---- the stable descending sort ----

  predicate Listed(t: Talker) { t.ip != 0 && t.bytes > 0 }

  /** Inserts after every entry that is at least as large. */
  ghost function Insert(l: seq<Talker>, t: Talker): seq<Talker> {
    if l == [] || t.bytes > l[0].bytes then [t] + l else [l[0]] + Insert(l[1..], t)
  }

  /** The listed slots among the first `n`, in slot order. */
  ghost function Live(slots: seq<Talker>, n: nat): seq<Talker>
    requires n <= |slots|
  {
    if n == 0 then []
    else if Listed(slots[n - 1]) then Live(slots, n - 1) + [slots[n - 1]]
    else Live(slots, n - 1)
  }

  /** The same slots, sorted by insertion in slot order. */
  ghost function Sorted(slots: seq<Talker>, n: nat): seq<Talker>
    requires n <= |slots|
  {
    if n == 0 then []
    else if Listed(slots[n - 1]) then Insert(Sorted(slots, n - 1), slots[n - 1])
    else Sorted(slots, n - 1)
  }

  ghost predicate Descending(l: seq<Talker>) {
    forall i, j :: 0 <= i <= j < |l| ==> l[i].bytes >= l[j].bytes
  }

  /** Where `Insert` puts its entry. */
  ghost function Position(l: seq<Talker>, t: Talker): (p: nat)
    ensures p <= |l|
    ensures forall i :: 0 <= i < p ==> t.bytes <= l[i].bytes
    ensures p < |l| ==> t.bytes > l[p].bytes
  {
    if l == [] || t.bytes > l[0].bytes then 0 else 1 + Position(l[1..], t)
  }

  /** `m` is `l` with `t` put in at `p`, after every entry at least as large and before every smaller one. */
  ghost predicate Inserted(l: seq<Talker>, t: Talker, p: nat, m: seq<Talker>) {
    && p <= |l| && |m| == |l| + 1
    && (forall i :: 0 <= i < p ==> m[i] == l[i] && t.bytes <= l[i].bytes)
    && m[p] == t
    && (forall i :: p < i < |m| ==> m[i] == l[i - 1])
    && (p < |l| ==> t.bytes > l[p].bytes)
  }

  lemma {:induction false} InsertIsInserted(l: seq<Talker>, t: Talker)
    ensures Inserted(l, t, Position(l, t), Insert(l, t))
    decreases l
  {
    var p, m := Position(l, t), Insert(l, t);
    if l == [] || t.bytes > l[0].bytes {
      assert m == [t] + l && p == 0;
    } else {
      var p', m' := Position(l[1..], t), Insert(l[1..], t);
      InsertIsInserted(l[1..], t);
      assert m == [l[0]] + m' && p == 1 + p';
      forall i | 0 <= i < p ensures m[i] == l[i] && t.bytes <= l[i].bytes {
        if i > 0 { assert m[i] == m'[i - 1] && l[i] == l[1..][i - 1]; }
      }
      forall i | p < i < |m| ensures m[i] == l[i - 1] {
        assert m[i] == m'[i - 1] && l[i - 1] == l[1..][i - 2];
      }
    }
  }

  lemma {:induction false} InsertMultiset(l: seq<Talker>, t: Talker)
    ensures multiset(Insert(l, t)) == multiset(l) + multiset{t}
    decreases l
  {
    if l != [] && t.bytes <= l[0].bytes {
      InsertMultiset(l[1..], t);
      assert l == [l[0]] + l[1..];
    }
  }

  lemma InsertKeepsOrder(l: seq<Talker>, t: Talker)
    requires Descending(l)
    ensures Descending(Insert(l, t))
  {
    InsertIsInserted(l, t);
    InsertedDescending(l, t, Position(l, t), Insert(l, t));
  }

  lemma InsertedDescending(l: seq<Talker>, t: Talker, p: nat, m: seq<Talker>)
    requires Inserted(l, t, p, m) && Descending(l)
    ensures Descending(m)
  {
    forall i, j | 0 <= i < j < |m| ensures m[i].bytes >= m[j].bytes {
      if i < p && j > p {
        assert m[i] == l[i] && m[j] == l[j - 1];
      } else if i == p {
        assert m[j] == l[j - 1];
      } else if i > p {
        assert m[i] == l[i - 1] && m[j] == l[j - 1];
      }
    }
  }

  lemma {:induction false} SortedDescends(slots: seq<Talker>, n: nat)
    requires n <= |slots|
    ensures Descending(Sorted(slots, n))
    decreases n
  {
    if n > 0 {
      SortedDescends(slots, n - 1);
      if Listed(slots[n - 1]) { InsertKeepsOrder(Sorted(slots, n - 1), slots[n - 1]); }
    }
  }

  ghost predicate Permutation(l: seq<Talker>, m: seq<Talker>) { multiset(l) == multiset(m) }

  lemma PermutationInsert(l: seq<Talker>, m: seq<Talker>, t: Talker)
    requires Permutation(l, m)
    ensures Permutation(Insert(l, t), m + [t])
  {
    InsertMultiset(l, t);
    assert multiset(m + [t]) == multiset(m) + multiset{t};
  }

  lemma {:induction false} SortedPermutes(slots: seq<Talker>, n: nat)
    requires n <= |slots|
    ensures Permutation(Sorted(slots, n), Live(slots, n))
    decreases n
  {
    if n > 0 {
      SortedPermutes(slots, n - 1);
      if Listed(slots[n - 1]) { PermutationInsert(Sorted(slots, n - 1), Live(slots, n - 1), slots[n - 1]); }
    }
  }

  /** The sort is a sort: descending, and a permutation of the listed slots. */
  lemma SortedIsSorted(slots: seq<Talker>, n: nat)
    requires n <= |slots|
    ensures Descending(Sorted(slots, n)) && Permutation(Sorted(slots, n), Live(slots, n))
  {
    SortedDescends(slots, n);
    SortedPermutes(slots, n);
  }

  /** The source a slot holds hashes to it. */
  ghost predicate Hashed(slots: seq<Talker>) {
    forall s :: 0 <= s < |slots| && slots[s].ip != 0 ==> slots[s].ip % 256 == s
  }

  /** Equal totals stay in slot order. */
  ghost predicate Stable(l: seq<Talker>) {
    forall i, j :: 0 <= i < j < |l| && l[i].bytes == l[j].bytes ==> l[i].ip % 256 < l[j].ip % 256
  }

  lemma {:induction false} SortedIsStable(slots: seq<Talker>, n: nat)
    requires n <= |slots| && Hashed(slots)
    ensures Stable(Sorted(slots, n)) && forall i :: 0 <= i < |Sorted(slots, n)| ==> Sorted(slots, n)[i].ip % 256 < n
    decreases n
  {
    if n > 0 {
      SortedIsStable(slots, n - 1);
      if Listed(slots[n - 1]) {
        var l, t := Sorted(slots, n - 1), slots[n - 1];
        SortedDescends(slots, n - 1);
        InsertIsInserted(l, t);
        InsertedStable(l, t, Position(l, t), Insert(l, t), n);
      }
    }
  }

  lemma InsertedStable(l: seq<Talker>, t: Talker, p: nat, m: seq<Talker>, n: nat)
    requires Inserted(l, t, p, m) && Stable(l) && Descending(l)
    requires (forall i :: 0 <= i < |l| ==> l[i].ip % 256 < n - 1) && t.ip % 256 == n - 1
    ensures Stable(m) && forall i :: 0 <= i < |m| ==> m[i].ip % 256 < n
  {
    assert forall j :: p <= j < |l| ==> l[j].bytes < t.bytes;
    assert forall i :: 0 <= i < p ==> l[i].bytes >= t.bytes;
    forall i, j | 0 <= i < j < |m| && m[i].bytes == m[j].bytes ensures m[i].ip % 256 < m[j].ip % 256 {
      if j < p {
        assert m[i] == l[i] && m[j] == l[j];
      } else if i > p {
        assert m[i] == l[i - 1] && m[j] == l[j - 1];
      }
    }
    forall i | 0 <= i < |m| ensures m[i].ip % 256 < n {
      assert m[i] == if i < p then l[i] else if i == p then t else l[i - 1];
    }
  }

  // ---- the first five ----

  /** The first five entries, zero-padded. */
  ghost function FirstFive(l: seq<Talker>): (r: seq<Talker>)
    ensures |r| == MAX_TALKERS
    ensures forall i :: 0 <= i < MAX_TALKERS ==> (i < |l| ==> r[i] == l[i]) && (i >= |l| ==> r[i] == NOBODY)
  {
    seq(MAX_TALKERS, i requires 0 <= i < MAX_TALKERS => if i < |l| then l[i] else NOBODY)
  }

  ghost function TopFive(slots: seq<Talker>): seq<Talker> {
    FirstFive(Sorted(slots, |slots|))
  }

  /** Truncated insertion commutes with truncation: the scan over the five finds where the sort would insert,
      if that is among the five. */
  lemma InsertTruncated(l: seq<Talker>, t: Talker, top: seq<Talker>, j: nat, top': seq<Talker>)
    requires t.bytes > 0 && top == FirstFive(l) && |top'| == MAX_TALKERS && j <= MAX_TALKERS
    requires forall i :: 0 <= i < j ==> t.bytes <= top[i].bytes
    requires j < MAX_TALKERS ==> t.bytes > top[j].bytes
    requires forall i :: 0 <= i < MAX_TALKERS ==>
               (i < j ==> top'[i] == top[i]) && (i == j ==> top'[i] == t) && (i > j ==> top'[i] == top[i - 1])
    ensures top' == FirstFive(Insert(l, t))
  {
    InsertIsInserted(l, t);
    TruncatedInserted(l, t, Position(l, t), Insert(l, t), top, j, top');
  }

  lemma TruncatedInserted(l: seq<Talker>, t: Talker, p: nat, m: seq<Talker>, top: seq<Talker>, j: nat, top': seq<Talker>)
    requires Inserted(l, t, p, m)
    requires t.bytes > 0 && top == FirstFive(l) && |top'| == MAX_TALKERS && j <= MAX_TALKERS
    requires forall i :: 0 <= i < j ==> t.bytes <= top[i].bytes
    requires j < MAX_TALKERS ==> t.bytes > top[j].bytes
    requires forall i :: 0 <= i < MAX_TALKERS ==>
               (i < j ==> top'[i] == top[i]) && (i == j ==> top'[i] == t) && (i > j ==> top'[i] == top[i - 1])
    ensures top' == FirstFive(m)
  {
    assert forall i :: 0 <= i < j && i < |l| ==> t.bytes <= top[i].bytes && top[i] == l[i];
    assert j < MAX_TALKERS && j < |l| ==> top[j] == l[j];
    assert j > 0 ==> t.bytes <= top[j - 1].bytes && j <= |l|;
    assert j <= p;
    assert j < MAX_TALKERS && j < |l| ==> t.bytes > l[j].bytes;
    var five := FirstFive(m);
    forall i | 0 <= i < MAX_TALKERS ensures top'[i] == five[i] {
      if i < j {
        assert top'[i] == top[i] == l[i] && five[i] == m[i];
      } else if i == j {
        assert five[i] == m[i];
      } else if i < |m| {
        assert top'[i] == top[i - 1] == l[i - 1] && five[i] == m[i];
      } else {
        assert top'[i] == top[i - 1] == NOBODY;
      }
    }
  }

  class TalkerTable {
    const slots: array<Talker>
    const top: array<Talker>
    var totalPkts: nat
    var totalBytes: nat
    var lastPkts: nat
    var lastBytes: nat
    var pps: int
    var bps: int
    var lastStatsTs: int
    ghost var history: seq<Pkt>

    ghost predicate Valid()
      reads this, slots, top
    {
      && slots.Length == SLOTS && top.Length == MAX_TALKERS && slots != top
      && (forall s :: 0 <= s < SLOTS ==> slots[s] == SlotAt(history, |history|, s))
      && totalPkts == |history|
    }

    constructor ()
      ensures Valid() && history == [] && fresh(slots) && fresh(top)
      ensures totalPkts == lastPkts == totalBytes == lastBytes == 0 && lastStatsTs == 0
    {
      slots := new Talker[SLOTS](_ => NOBODY);
      top := new Talker[MAX_TALKERS](_ => NOBODY);
      totalPkts, totalBytes, lastPkts, lastBytes, pps, bps, lastStatsTs := 0, 0, 0, 0, 0, 0, 0;
      history := [];
    }

    /** The scan-and-shift step for one slot. */
    method InsertTop(t: Talker, ghost l: seq<Talker>)
      requires top.Length == MAX_TALKERS && Descending(l) && top[..] == FirstFive(l)
      modifies top
      ensures top[..] == FirstFive(if t.bytes > 0 then Insert(l, t) else l)
    {
      ghost var before := top[..];
      for j := 0 to MAX_TALKERS
        invariant top[..] == before
        invariant forall i :: 0 <= i < j ==> t.bytes <= before[i].bytes
      {
        if t.bytes > top[j].bytes {
          var k := MAX_TALKERS - 1;
          while k > j
            invariant j <= k < MAX_TALKERS
            invariant forall i :: 0 <= i <= k ==> top[i] == before[i]
            invariant forall i :: k < i < MAX_TALKERS ==> top[i] == before[i - 1]
          {
            top[k] := top[k - 1];
            k := k - 1;
          }
          top[j] := t;
          InsertTruncated(l, t, before, j, top[..]);
          return;
        }
      }
      if t.bytes > 0 {
        InsertTruncated(l, t, before, MAX_TALKERS, top[..]);
      }
    }

    /** Truncated insertion over all slots is the first five of the stable descending sort. */
    method RefreshTop()
      requires slots.Length == SLOTS && top.Length == MAX_TALKERS && slots != top
      modifies top
      ensures top[..] == TopFive(slots[..])
    {
      for i := 0 to MAX_TALKERS
        invariant forall k :: 0 <= k < i ==> top[k] == NOBODY
      {
        top[i] := NOBODY;
      }
      ghost var all := slots[..];
      assert top[..] == FirstFive([]);
      for i := 0 to SLOTS
        invariant slots[..] == all && top[..] == FirstFive(Sorted(all, i))
      {
        SortedDescends(all, i);
        if slots[i].ip != 0 {
          InsertTop(slots[i], Sorted(all, i));
        }
      }
    }

    method UpdateStats(p: Pkt, now: int)
      requires Valid()
      modifies this, slots, top
      ensures Valid() && history == old(history) + [p]
      ensures totalBytes == old(totalBytes) + p.len && totalPkts == old(totalPkts) + 1
      ensures if now - old(lastStatsTs) >= 1 then
                && top[..] == TopFive(slots[..])
                && lastStatsTs == now && lastPkts == totalPkts && lastBytes == totalBytes
                && pps == totalPkts - old(lastPkts) && bps == totalBytes - old(lastBytes)
              else
                && top[..] == old(top[..])
                && lastStatsTs == old(lastStatsTs) && lastPkts == old(lastPkts) && lastBytes == old(lastBytes)
                && pps == old(pps) && bps == old(bps)
      ensures now - old(lastStatsTs) >= 1 ==>
                && (TrueTopFive(history, top[..]) <==> UncountedAreSmall(history) && StrayHidden(history))
                && (NoCollision(history) ==> TrueTopFive(history, top[..]))
    {
      totalPkts := totalPkts + 1;
      totalBytes := totalBytes + p.len;
      Count(p);
      if now - lastStatsTs >= STATS_INTERVAL {
        pps := totalPkts - lastPkts;
        bps := totalBytes - lastBytes;
        lastPkts := totalPkts;
        lastBytes := totalBytes;
        lastStatsTs := now;
        RefreshTop();
        assert slots[..] == SlotsOf(history);
        TopTalkersTrueExactlyWhen(history);
        if NoCollision(history) {
          TopTalkersTrue(history);
        }
      }
    }

    method Count(p: Pkt)
      requires slots.Length == SLOTS && slots != top
      requires forall s :: 0 <= s < SLOTS ==> slots[s] == SlotAt(history, |history|, s)
      modifies slots, this`history
      ensures history == old(history) + [p]
      ensures forall s :: 0 <= s < SLOTS ==> slots[s] == SlotAt(history, |history|, s)
    {
      var slot := p.ip % 256;
      forall s: nat | s < SLOTS ensures SlotAt(history + [p], |history|, s) == SlotAt(history, |history|, s) {
        SlotPrefix(history, p, |history|, s);
      }
      if slots[slot].ip == 0 || slots[slot].ip == p.ip {
        slots[slot] := Talker(p.ip, slots[slot].bytes + p.len, slots[slot].pkts + 1);
      }
      history := history + [p];
    }
  }

  lemma {:induction false} SlotPrefix(h: seq<Pkt>, p: Pkt, n: nat, s: nat)
    requires n <= |h|
    ensures SlotAt(h + [p], n, s) == SlotAt(h, n, s)
    decreases n
  {
    if n > 0 { SlotPrefix(h, p, n - 1, s); }
  }

  // ---- end to end ----

  /** No two different recorded sources share a low byte, source 0 included. */
  ghost predicate NoCollision(h: seq<Pkt>) {
    forall i, j :: 0 <= i < |h| && 0 <= j < |h| && h[i].ip % 256 == h[j].ip % 256 ==> h[i].ip == h[j].ip
  }

  ghost predicate Recorded(h: seq<Pkt>, ip: u32) {
    exists i :: 0 <= i < |h| && h[i].ip == ip
  }

  ghost predicate EntryTrue(h: seq<Pkt>, t: Talker) {
    Recorded(h, t.ip) && t.bytes == Bytes(h, |h|, t.ip) && t.pkts == Packets(h, |h|, t.ip)
  }

  ghost predicate EntriesTrue(h: seq<Pkt>, top: seq<Talker>)
    requires |top| == MAX_TALKERS
  {
    forall i :: 0 <= i < MAX_TALKERS && top[i].ip != 0 ==> EntryTrue(h, top[i])
  }

  /** No source left out of the five is larger than the last of them. */
  ghost predicate NothingLarger(h: seq<Pkt>, top: seq<Talker>)
    requires |top| == MAX_TALKERS
  {
    forall ip: u32 :: Recorded(h, ip) && ip != 0 && (forall i :: 0 <= i < MAX_TALKERS ==> top[i].ip != ip) ==>
      Bytes(h, |h|, ip) <= top[MAX_TALKERS - 1].bytes
  }

  /** The true five largest non-zero sources by bytes over the whole history, largest first and zero-padded. */
  ghost predicate TrueTopFive(h: seq<Pkt>, top: seq<Talker>) {
    && |top| == 5 && Descending(top)
    && EntriesTrue(h, top) && NothingLarger(h, top)
    && (forall i :: 0 <= i < 5 && top[i].ip == 0 ==> top[i] == NOBODY)
    && (forall i :: 0 <= i < 5 && top[i].ip != 0 ==> top[i].bytes > 0)
    && (forall i, j :: 0 <= i < j < 5 && top[i].ip != 0 ==> top[i].ip != top[j].ip)
  }

  /** The slot table of a history. */
  ghost function SlotsOf(h: seq<Pkt>): (r: seq<Talker>)
    ensures |r| == SLOTS && forall s :: 0 <= s < SLOTS ==> r[s] == SlotAt(h, |h|, s)
  {
    seq(SLOTS, s requires 0 <= s < SLOTS => SlotAt(h, |h|, s))
  }

  lemma SlotsAreHashed(h: seq<Pkt>)
    ensures Hashed(SlotsOf(h))
  {
    forall s | 0 <= s < SLOTS && SlotsOf(h)[s].ip != 0 ensures SlotsOf(h)[s].ip % 256 == s {
      SlotExact(h, |h|, s);
    }
  }

  lemma {:induction false} LiveFrom(slots: seq<Talker>, n: nat, t: Talker)
    requires n <= |slots|
    ensures t in Live(slots, n) <==> exists s :: 0 <= s < n && slots[s] == t && Listed(t)
    decreases n
  {
    if n > 0 { LiveFrom(slots, n - 1, t); }
  }

  /** What the sorted list contains: the listed slots. */
  lemma SortedFrom(slots: seq<Talker>, t: Talker)
    ensures t in Sorted(slots, |slots|) <==> exists s :: 0 <= s < |slots| && slots[s] == t && Listed(t)
  {
    SortedIsSorted(slots, |slots|);
    LiveFrom(slots, |slots|, t);
    assert t in Sorted(slots, |slots|) <==> t in multiset(Sorted(slots, |slots|));
    assert t in Live(slots, |slots|) <==> t in multiset(Live(slots, |slots|));
  }

  lemma {:induction false} SortedDistinct(slots: seq<Talker>, n: nat)
    requires n <= |slots| && Hashed(slots)
    ensures forall i, j :: 0 <= i < j < |Sorted(slots, n)| ==> Sorted(slots, n)[i].ip % 256 != Sorted(slots, n)[j].ip % 256
    decreases n
  {
    if n > 0 {
      SortedDistinct(slots, n - 1);
      SortedIsStable(slots, n - 1);
      if Listed(slots[n - 1]) {
        var l, t := Sorted(slots, n - 1), slots[n - 1];
        InsertIsInserted(l, t);
        InsertedDistinct(l, t, Position(l, t), Insert(l, t), n);
      }
    }
  }

  lemma InsertedDistinct(l: seq<Talker>, t: Talker, p: nat, m: seq<Talker>, n: nat)
    requires Inserted(l, t, p, m)
    requires forall i, j :: 0 <= i < j < |l| ==> l[i].ip % 256 != l[j].ip % 256
    requires (forall i :: 0 <= i < |l| ==> l[i].ip % 256 < n - 1) && t.ip % 256 == n - 1
    ensures forall i, j :: 0 <= i < j < |m| ==> m[i].ip % 256 != m[j].ip % 256
  {
    forall i, j | 0 <= i < j < |m| ensures m[i].ip % 256 != m[j].ip % 256 {
      if i < p && j > p {
        assert m[i] == l[i] && m[j] == l[j - 1];
      } else if i == p {
        assert m[j] == l[j - 1];
      } else if i > p {
        assert m[i] == l[i - 1] && m[j] == l[j - 1];
      } else {
        assert m[i] == l[i];
      }
    }
  }

  /** Every omitted listed slot is no larger than the last of the five. */
  lemma OmittedAreSmaller(slots: seq<Talker>, s: nat)
    requires s < |slots| && Listed(slots[s]) && forall i :: 0 <= i < MAX_TALKERS ==> TopFive(slots)[i] != slots[s]
    ensures slots[s].bytes <= TopFive(slots)[MAX_TALKERS - 1].bytes
  {
    var l := Sorted(slots, |slots|);
    SortedFrom(slots, slots[s]);
    SortedIsSorted(slots, |slots|);
    assert forall k :: 0 <= k < MAX_TALKERS && k < |l| ==> TopFive(slots)[k] == l[k] != slots[s];
    var i :| 0 <= i < |l| && l[i] == slots[s];
    assert l[i].bytes <= l[MAX_TALKERS - 1].bytes;
  }

  /** A recorded source that came second to its slot. */
  ghost predicate Uncounted(h: seq<Pkt>, ip: u32) {
    && Recorded(h, ip) && ip != 0
    && var k := Takeover(h, |h|, ip % 256);
       k.Some? && h[k.value].ip != ip
  }

  /** What slot 0 had counted for source 0 before its first real source arrived. */
  ghost function Stray(h: seq<Pkt>): (nat, nat) {
    var k := Takeover(h, |h|, 0);
    if k.None? then (0, 0) else (Bytes(h, k.value, 0), Packets(h, k.value, 0))
  }

  /** A listed slot, told by the source it holds: its totals, and in slot 0 the stray counts. */
  lemma {:induction false} SlotOfHolder(h: seq<Pkt>, s: nat)
    requires s < SLOTS && SlotsOf(h)[s].ip != 0
    ensures var t := SlotsOf(h)[s];
            && Recorded(h, t.ip) && t.ip % 256 == s
            && t.bytes == Bytes(h, |h|, t.ip) + (if s == 0 then Stray(h).0 else 0)
            && t.pkts == Packets(h, |h|, t.ip) + (if s == 0 then Stray(h).1 else 0)
  {
    SlotExact(h, |h|, s);
  }

  /** A recorded source is uncounted or holds its slot. */
  lemma HolderOrUncounted(h: seq<Pkt>, ip: u32)
    requires Recorded(h, ip) && ip != 0 && !Uncounted(h, ip)
    ensures SlotsOf(h)[ip % 256].ip == ip
  {
    var i :| 0 <= i < |h| && h[i].ip == ip;
    assert Takeover(h, |h|, ip % 256).Some?;
    SlotExact(h, |h|, ip % 256);
  }

  /** An entry of the five is a listed slot, or padding. */
  lemma TopFromSlot(h: seq<Pkt>, i: nat) returns (s: nat)
    requires i < MAX_TALKERS && TopFive(SlotsOf(h))[i].ip != 0
    ensures s < SLOTS && SlotsOf(h)[s] == TopFive(SlotsOf(h))[i] && s == TopFive(SlotsOf(h))[i].ip % 256
    ensures TopFive(SlotsOf(h))[i].bytes > 0
  {
    var slots := SlotsOf(h);
    var t := TopFive(slots)[i];
    assert i < |Sorted(slots, |slots|)|;
    SortedFrom(slots, t);
    s :| 0 <= s < |slots| && slots[s] == t && Listed(t);
    SlotsAreHashed(h);
  }

  /** The totals of an entry, with what slot 0 inherited. */
  lemma TopEntry(h: seq<Pkt>, i: nat)
    requires i < MAX_TALKERS
    ensures var t := TopFive(SlotsOf(h))[i];
            if t.ip == 0 then t == NOBODY
            else
              && Recorded(h, t.ip) && t.bytes > 0
              && t.bytes == Bytes(h, |h|, t.ip) + (if t.ip % 256 == 0 then Stray(h).0 else 0)
              && t.pkts == Packets(h, |h|, t.ip) + (if t.ip % 256 == 0 then Stray(h).1 else 0)
  {
    var slots := SlotsOf(h);
    var t := TopFive(slots)[i];
    if t.ip != 0 {
      var s := TopFromSlot(h, i);
      SlotOfHolder(h, s);
    } else {
      EmptyIsPadding(slots, i);
    }
  }

  lemma EmptyIsPadding(slots: seq<Talker>, i: nat)
    requires i < MAX_TALKERS && TopFive(slots)[i].ip == 0
    ensures TopFive(slots)[i] == NOBODY
  {
    SortedFrom(slots, TopFive(slots)[i]);
  }

  lemma TopIsDescending(slots: seq<Talker>)
    ensures Descending(TopFive(slots))
  {
    SortedIsSorted(slots, |slots|);
  }

  lemma TopIsDistinct(h: seq<Pkt>, i: nat, j: nat)
    requires i < j < MAX_TALKERS && TopFive(SlotsOf(h))[i].ip != 0
    ensures TopFive(SlotsOf(h))[i].ip != TopFive(SlotsOf(h))[j].ip
  {
    SlotsAreHashed(h);
    SortedDistinct(SlotsOf(h), SLOTS);
  }

  /** No uncounted source is larger than the last of the five. */
  ghost predicate UncountedAreSmall(h: seq<Pkt>) {
    forall ip: u32 :: Uncounted(h, ip) ==> Bytes(h, |h|, ip) <= TopFive(SlotsOf(h))[MAX_TALKERS - 1].bytes
  }

  /** What slot 0 inherited is nothing, or slot 0 is not among the five. */
  ghost predicate StrayHidden(h: seq<Pkt>) {
    forall i :: 0 <= i < MAX_TALKERS && TopFive(SlotsOf(h))[i].ip != 0 && TopFive(SlotsOf(h))[i].ip % 256 == 0 ==>
      Stray(h) == (0, 0)
  }

  /** A holder left out of the five is no larger than the last of them. */
  lemma LeftOutIsSmall(h: seq<Pkt>, ip: u32)
    requires Recorded(h, ip) && ip != 0 && !Uncounted(h, ip)
    requires forall i :: 0 <= i < MAX_TALKERS ==> TopFive(SlotsOf(h))[i].ip != ip
    ensures Bytes(h, |h|, ip) <= TopFive(SlotsOf(h))[MAX_TALKERS - 1].bytes
  {
    HolderOrUncounted(h, ip);
    SlotOfHolder(h, ip % 256);
    if SlotsOf(h)[ip % 256].bytes > 0 {
      OmittedAreSmaller(SlotsOf(h), ip % 256);
    }
  }

  /** The entries are exactly right when slot 0's inheritance does not show. */
  lemma EntriesTrueExactlyWhen(h: seq<Pkt>)
    ensures StrayHidden(h) <==> EntriesTrue(h, TopFive(SlotsOf(h)))
  {
    var top := TopFive(SlotsOf(h));
    forall i | 0 <= i < MAX_TALKERS && top[i].ip != 0
      ensures Recorded(h, top[i].ip)
      ensures EntryTrue(h, top[i]) <==> (top[i].ip % 256 == 0 ==> Stray(h) == (0, 0))
    {
      TopEntry(h, i);
    }
  }

  lemma NothingLargerExactlyWhen(h: seq<Pkt>)
    ensures UncountedAreSmall(h) <==> NothingLarger(h, TopFive(SlotsOf(h)))
  {
    var top := TopFive(SlotsOf(h));
    if UncountedAreSmall(h) {
      forall ip: u32 | Recorded(h, ip) && ip != 0 && forall i :: 0 <= i < MAX_TALKERS ==> top[i].ip != ip
        ensures Bytes(h, |h|, ip) <= top[MAX_TALKERS - 1].bytes
      {
        if !Uncounted(h, ip) { LeftOutIsSmall(h, ip); }
      }
    }
    if NothingLarger(h, top) {
      forall ip: u32 | Uncounted(h, ip) ensures Bytes(h, |h|, ip) <= top[MAX_TALKERS - 1].bytes {
        UncountedNotShown(h, ip);
      }
    }
  }

  lemma UncountedNotShown(h: seq<Pkt>, ip: u32)
    requires Uncounted(h, ip)
    ensures forall i :: 0 <= i < MAX_TALKERS ==> TopFive(SlotsOf(h))[i].ip != ip
  {
    LaterSourceUncounted(h, Takeover(h, |h|, ip % 256).value, ip);
    forall i | 0 <= i < MAX_TALKERS ensures TopFive(SlotsOf(h))[i].ip != ip {
      if TopFive(SlotsOf(h))[i].ip != 0 {
        var s := TopFromSlot(h, i);
      }
    }
  }

  lemma TopIsPadded(h: seq<Pkt>)
    ensures var top := TopFive(SlotsOf(h));
            forall i :: 0 <= i < MAX_TALKERS ==> (top[i].ip == 0 ==> top[i] == NOBODY) && (top[i].ip != 0 ==> top[i].bytes > 0)
  {
    var top := TopFive(SlotsOf(h));
    forall i | 0 <= i < MAX_TALKERS
      ensures (top[i].ip == 0 ==> top[i] == NOBODY) && (top[i].ip != 0 ==> top[i].bytes > 0)
    {
      TopEntry(h, i);
    }
  }

  /** Exactly when a refresh shows the true five largest sources, collisions or not: every source that came second to
      its slot is no larger than the last of the five, and slot 0's inheritance does not show. */
  lemma TopTalkersTrueExactlyWhen(h: seq<Pkt>)
    ensures TrueTopFive(h, TopFive(SlotsOf(h))) <==> UncountedAreSmall(h) && StrayHidden(h)
  {
    var top := TopFive(SlotsOf(h));
    TopIsDescending(SlotsOf(h));
    TopIsPadded(h);
    EntriesTrueExactlyWhen(h);
    NothingLargerExactlyWhen(h);
    forall i, j | 0 <= i < j < MAX_TALKERS && top[i].ip != 0 ensures top[i].ip != top[j].ip {
      TopIsDistinct(h, i, j);
    }
  }

  /** If no two different recorded sources (counting source 0) share a low byte, every refresh shows the true
      five largest non-zero sources over the whole recorded history. */
  lemma TopTalkersTrue(h: seq<Pkt>)
    requires NoCollision(h)
    ensures TrueTopFive(h, TopFive(SlotsOf(h)))
  {
    var k := Takeover(h, |h|, 0);
    if k.Some? {
      AbsentCountsNothing(h, k.value, 0);
    }
    TopTalkersTrueExactlyWhen(h);
  }

  /** With a collision the later source is not counted at all. */
  lemma LaterSourceUncounted(h: seq<Pkt>, k: nat, ip: u32)
    requires ip != 0 && Takeover(h, |h|, ip % 256) == Some(k) && h[k].ip != ip
    ensures forall s :: 0 <= s < SLOTS ==> SlotsOf(h)[s].ip != ip
  {
    forall s | 0 <= s < SLOTS ensures SlotsOf(h)[s].ip != ip {
      SlotExact(h, |h|, s);
    }
  }
}
