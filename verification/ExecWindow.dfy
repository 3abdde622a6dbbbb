/** execguard, kernel side: the per-(uid, comm) exec counter with a 60 s window that restarts on expiry. */
module ExecWindow {
  import opened Prelude

  const WINDOW_NS: nat := 60_000_000_000
  const MAX_KEYS: nat := 8192

  /** `comm` stands for the 128-byte path field too: the kernel fills that field from comm and zeros. */
  datatype Key = Key(uid: u32, comm: string)
  datatype Stat = Stat(start: u64, count: u32)

  /** One sched_process_exec: the clock reading, who ran, and whether the ring buffer had a slot. */
  datatype Exec = Exec(now: u64, key: Key, reserved: bool)

  /** `bpf_map_update_elem` with BPF_ANY on a hash map: a new key is refused when the map is full. */
  function Put(stats: map<Key, Stat>, key: Key, st: Stat): map<Key, Stat> {
    if key in stats || |stats| < MAX_KEYS then stats[key := st] else stats
  }

  function Bump(st: Stat, now: u64): Stat {
    if Elapsed(now, st.start) > WINDOW_NS then Stat(now, 1)
    else Stat(st.start, Inc32(st.count))
  }

  function After(stats: map<Key, Stat>, x: Exec): map<Key, Stat> {
    if !x.reserved then stats
    else if x.key !in stats then Put(stats, x.key, Stat(x.now, 1))
    else stats[x.key := Bump(stats[x.key], x.now)]
  }

  /** The exec_count of the event an exec emits, if it emits one. */
  function Report(stats: map<Key, Stat>, x: Exec): Option<u32> {
    if !x.reserved then None
    else if x.key !in stats then Some(1)
    else Some(Bump(stats[x.key], x.now).count)
  }

  class ExecGuard {
    var stats: map<Key, Stat>

    ghost predicate Valid()
      reads this
    {
      |stats| <= MAX_KEYS
    }

    constructor ()
      ensures Valid() && stats == map[]
    {
      stats := map[];
    }

    method HandleExec(now: u64, key: Key, reserved: bool) returns (execCount: Option<u32>)
      requires Valid()
      modifies this
      ensures Valid()
      ensures stats == After(old(stats), Exec(now, key, reserved))
      ensures execCount == Report(old(stats), Exec(now, key, reserved))
      ensures forall k :: k != key ==> (k in stats <==> k in old(stats)) && (k in stats ==> stats[k] == old(stats)[k])
    {
      if !reserved {
        return None;
      }
      if key !in stats {
        if |stats| < MAX_KEYS {
          stats := stats[key := Stat(now, 1)];
        }
        execCount := Some(1);
      } else {
        var st := stats[key];
        if Elapsed(now, st.start) > WINDOW_NS {
          st := Stat(now, 1);
        } else {
          st := st.(count := Inc32(st.count));
        }
        stats := stats[key := st];
        assert stats.Keys == old(stats).Keys;
        assert |stats| == |stats.Keys|;
        execCount := Some(st.count);
      }
    }
  }

  // ---- runs ----

  ghost predicate Monotone(xs: seq<Exec>) {
    forall i, j :: 0 <= i <= j < |xs| ==> xs[i].now <= xs[j].now
  }

  /** The counter table after the first `i` execs of a run from boot. */
  ghost function TableAt(xs: seq<Exec>, i: nat): map<Key, Stat>
    requires i <= |xs|
  {
    if i == 0 then map[] else After(TableAt(xs, i - 1), xs[i - 1])
  }

  ghost function ReportAt(xs: seq<Exec>, i: nat): Option<u32>
    requires i < |xs|
  {
    Report(TableAt(xs, i), xs[i])
  }

  ghost predicate Hit(x: Exec, k: Key, from: int) {
    x.reserved && x.key == k && from <= x.now
  }

  /** How many delivered execs of `k` in xs[a..i] happened at or after `from`. */
  ghost function Count(xs: seq<Exec>, a: nat, i: nat, k: Key, from: int): (n: nat)
    requires i <= |xs|
    ensures n <= i
  {
    if i <= a then 0 else Count(xs, a, i - 1, k, from) + if Hit(xs[i - 1], k, from) then 1 else 0
  }

  lemma {:induction false} CountAntitone(xs: seq<Exec>, i: nat, k: Key, from: int, earlier: int)
    requires earlier <= from && i <= |xs|
    ensures Count(xs, 0, i, k, from) <= Count(xs, 0, i, k, earlier)
    decreases i
  {
    if i > 0 { CountAntitone(xs, i - 1, k, from, earlier); }
  }

  /** In every run, a stored count is at most the delivered execs since its window began. */
  lemma {:induction false} StoredCountBounded(xs: seq<Exec>, i: nat, k: Key)
    requires Monotone(xs) && i <= |xs|
    ensures k in TableAt(xs, i) ==>
              var st := TableAt(xs, i)[k];
              && st.count <= Count(xs, 0, i, k, st.start)
              && (i < |xs| ==> st.start <= xs[i].now)
    decreases i
  {
    if i > 0 {
      StoredCountBounded(xs, i - 1, k);
    }
  }

  /** No false counts: whatever failed along the way, an emitted count never exceeds the
      delivered execs of the same key in the closed 60 s that end at the event. */
  lemma NeverOvercounts(xs: seq<Exec>, i: nat)
    requires Monotone(xs) && i < |xs| && ReportAt(xs, i).Some?
    ensures ReportAt(xs, i).value <= Count(xs, 0, i + 1, xs[i].key, xs[i].now - WINDOW_NS)
  {
    var k := xs[i].key;
    StoredCountBounded(xs, i, k);
    var s := TableAt(xs, i);
    var start := if k in s then Bump(s[k], xs[i].now).start else xs[i].now;
    CountAntitone(xs, i + 1, k, start, xs[i].now - WINDOW_NS);
  }

  /** The bookkeeping of the detection argument for an interval of `n` delivered execs that opened at time `since`:
      `earlier` of them fell in a window that has since been restarted, and `best` is a count already emitted. */
  ghost predicate Tally(since: u64, n: nat, st: Stat, earlier: nat, best: nat) {
    && st.count <= best
    && if st.start < since then n + 1 <= st.count
       else n <= earlier + st.count && (earlier == 0 || earlier + 1 <= best)
  }

  /** Below 2^32 execs no stored count has wrapped to 0. */
  lemma {:induction false} StoredPositive(xs: seq<Exec>, i: nat, k: Key)
    requires Monotone(xs) && |xs| < U32 && i <= |xs|
    ensures k in TableAt(xs, i) ==> TableAt(xs, i)[k].count >= 1
    decreases i
  {
    if i > 0 {
      StoredPositive(xs, i - 1, k);
      StoredCountBounded(xs, i - 1, k);
    }
  }

  /** What one exec does to the entry of a key already stored, without the machine arithmetic. */
  lemma StoredStep(xs: seq<Exec>, i: nat, k: Key)
    requires Monotone(xs) && |xs| < U32 && i < |xs| && k in TableAt(xs, i)
    ensures k in TableAt(xs, i + 1)
    ensures var st, st', x := TableAt(xs, i)[k], TableAt(xs, i + 1)[k], xs[i];
            if Hit(x, k, 0) then
              && ReportAt(xs, i) == Some(st'.count)
              && st'.start == (if x.now > st.start + WINDOW_NS then x.now else st.start)
              && st'.count == (if x.now > st.start + WINDOW_NS then 1 else st.count + 1)
            else st' == st
  {
    StoredCountBounded(xs, i, k);
  }

  lemma WindowOpens(xs: seq<Exec>, a: nat, k: Key)
    requires Monotone(xs) && |xs| < U32 && a < |xs|
    requires xs[a].reserved && xs[a].key == k
    requires k in TableAt(xs, a) || |TableAt(xs, a)| < MAX_KEYS
    ensures k in TableAt(xs, a + 1) && ReportAt(xs, a).Some?
    ensures Tally(xs[a].now, 1, TableAt(xs, a + 1)[k], 0, ReportAt(xs, a).value)
  {
    if k in TableAt(xs, a) {
      StoredPositive(xs, a, k);
      StoredStep(xs, a, k);
    }
  }

  ghost predicate EmittedBy(xs: seq<Exec>, a: nat, i: nat, k: Key, best: nat, at: nat)
    requires i <= |xs|
  {
    a <= at < i && xs[at].key == k && ReportAt(xs, at) == Some(best)
  }

  lemma {:induction false} WindowProgress(xs: seq<Exec>, a: nat, i: nat, k: Key)
    returns (earlier: nat, best: nat, at: nat)
    requires Monotone(xs) && |xs| < U32
    requires a < i <= |xs| && xs[i - 1].now <= xs[a].now + WINDOW_NS
    requires xs[a].reserved && xs[a].key == k
    requires k in TableAt(xs, a) || |TableAt(xs, a)| < MAX_KEYS
    ensures EmittedBy(xs, a, i, k, best, at)
    ensures k in TableAt(xs, i) && Count(xs, a, i, k, 0) > 0
    ensures Tally(xs[a].now, Count(xs, a, i, k, 0), TableAt(xs, i)[k], earlier, best)
    decreases i
  {
    if i == a + 1 {
      WindowOpens(xs, a, k);
      earlier, best, at := 0, ReportAt(xs, a).value, a;
    } else {
      earlier, best, at := WindowProgress(xs, a, i - 1, k);
      StoredStep(xs, i - 1, k);
      if Hit(xs[i - 1], k, 0) {
        var st, st' := TableAt(xs, i - 1)[k], TableAt(xs, i)[k];
        if st.start < xs[a].now <= st'.start {
          earlier := Count(xs, a, i - 1, k, 0);
        }
        if st'.count > best {
          best, at := st'.count, i - 1;
        }
      }
    }
  }

  ghost predicate Emits(xs: seq<Exec>, a: nat, b: nat, k: Key, n: nat)
    requires b <= |xs|
  {
    exists at :: a <= at < b && xs[at].key == k && ReportAt(xs, at).Some? && ReportAt(xs, at).value >= n
  }

  /** Detection: 2n - 2 delivered execs of one key inside a closed 60 s interval make the counter emit
      at least n, provided the interval's first exec found its key stored or the table not full. */
  lemma BurstReported(xs: seq<Exec>, a: nat, b: nat, n: nat)
    requires Monotone(xs) && |xs| < U32 && n >= 2
    requires a < b <= |xs| && xs[b - 1].now <= xs[a].now + WINDOW_NS
    requires xs[a].reserved
    requires xs[a].key in TableAt(xs, a) || |TableAt(xs, a)| < 8192
    requires Count(xs, a, b, xs[a].key, 0) >= 2 * n - 2
    ensures Emits(xs, a, b, xs[a].key, n)
  {
    var _, best, at := WindowProgress(xs, a, b, xs[a].key);
    assert ReportAt(xs, at).value >= n;
  }

  // ---- exactly what is counted ----

  /** The exec that opened the window in force for `k`, told from the history alone: the first delivered exec of `k`,
      then each one more than 60 s after the opener before it. */
  ghost function Opener(xs: seq<Exec>, i: nat, k: Key): (m: Option<nat>)
    requires i <= |xs|
    ensures m.Some? ==> m.value < i && Hit(xs[m.value], k, 0)
    decreases i
  {
    if i == 0 then None
    else
      var m := Opener(xs, i - 1, k);
      if Hit(xs[i - 1], k, 0) && (m.Some? ==> xs[i - 1].now > xs[m.value].now + WINDOW_NS) then Some(i - 1) else m
  }

  /** What the table says of `k`: the opener's time and the delivered execs since then; nothing if there was none;
      nothing for ever if the table was full when the first one came. */
  ghost predicate StatFits(t: map<Key, Stat>, xs: seq<Exec>, i: nat, k: Key, m: Option<nat>)
    requires i <= |xs| && (m.Some? ==> m.value < i)
  {
    if k in t then m.Some? && t[k].start == xs[m.value].now && t[k].count == Count(xs, m.value, i, k, 0)
    else m.None? || |t| >= MAX_KEYS
  }

  lemma FullStaysFull(t: map<Key, Stat>, x: Exec)
    ensures |t| <= |After(t, x)|
  {
    var t' := After(t, x);
    assert t.Keys <= t'.Keys;
    assert |t| == |t.Keys| && |t'| == |t'.Keys|;
    SubsetSize(t.Keys, t'.Keys);
  }

  /** In every run the entry of a stored key is its opener's time and the exact number of delivered execs since. */
  lemma {:induction false} StoredExactly(xs: seq<Exec>, i: nat, k: Key)
    requires Monotone(xs) && |xs| < U32 && i <= |xs|
    ensures StatFits(TableAt(xs, i), xs, i, k, Opener(xs, i, k))
    decreases i
  {
    if i > 0 {
      StoredExactly(xs, i - 1, k);
      if k in TableAt(xs, i - 1) {
        StoredStep(xs, i - 1, k);
      } else {
        StoredFirst(xs, i - 1, k);
      }
    }
  }

  lemma StoredFirst(xs: seq<Exec>, i: nat, k: Key)
    requires i < |xs| && k !in TableAt(xs, i) && StatFits(TableAt(xs, i), xs, i, k, Opener(xs, i, k))
    ensures StatFits(TableAt(xs, i + 1), xs, i + 1, k, Opener(xs, i + 1, k))
  {
    FullStaysFull(TableAt(xs, i), xs[i]);
  }

  /** The exec finds its key stored, or room for it. */
  ghost predicate Counted(xs: seq<Exec>, i: nat)
    requires i < |xs|
  {
    xs[i].reserved && (xs[i].key in TableAt(xs, i) || |TableAt(xs, i)| < 8192)
  }

  /** The reported count is the number of delivered execs since the opener, this one included, and the opener is at most
      60 s back. */
  lemma ReportedSinceOpener(xs: seq<Exec>, i: nat)
    requires Monotone(xs) && |xs| < U32 && i < |xs| && Counted(xs, i)
    ensures var m := Opener(xs, i + 1, xs[i].key);
            && m.Some? && xs[i].now <= xs[m.value].now + WINDOW_NS
            && ReportAt(xs, i) == Some(Count(xs, m.value, i + 1, xs[i].key, 0))
  {
    var k := xs[i].key;
    StoredExactly(xs, i, k);
    StoredExactly(xs, i + 1, k);
    if k in TableAt(xs, i) {
      StoredStep(xs, i, k);
    }
  }

  lemma {:induction false} CountSplits(xs: seq<Exec>, m: nat, i: nat, k: Key, from: int)
    requires Monotone(xs) && m < i <= |xs| && from <= xs[m].now
    ensures Count(xs, 0, i, k, from) == Count(xs, 0, m, k, from) + Count(xs, m, i, k, 0)
    decreases i
  {
    assert from <= xs[i - 1].now;
    if i > m + 1 { CountSplits(xs, m, i - 1, k, from); }
  }

  lemma {:induction false} CountZero(xs: seq<Exec>, i: nat, k: Key, from: int)
    requires i <= |xs|
    ensures Count(xs, 0, i, k, from) == 0 <==> forall j :: 0 <= j < i ==> !Hit(xs[j], k, from)
    decreases i
  {
    if i > 0 { CountZero(xs, i - 1, k, from); }
  }

  /** When exec_count is the rate of the last 60 s: exactly when no delivered exec of the key in those 60 s came before
      the opener. In every case it falls short by the number of those that did. */
  lemma RateExactlyWhen(xs: seq<Exec>, i: nat)
    requires Monotone(xs) && |xs| < U32 && i < |xs| && Counted(xs, i)
    ensures var k, from, m := xs[i].key, xs[i].now - WINDOW_NS, Opener(xs, i + 1, xs[i].key);
            && m.Some? && ReportAt(xs, i).Some?
            && Count(xs, 0, i + 1, k, from) == ReportAt(xs, i).value + Count(xs, 0, m.value, k, from)
            && (ReportAt(xs, i).value == Count(xs, 0, i + 1, k, from)
                <==> forall j :: 0 <= j < m.value ==> !Hit(xs[j], k, from))
  {
    var k, from := xs[i].key, xs[i].now - WINDOW_NS;
    ReportedSinceOpener(xs, i);
    var m := Opener(xs, i + 1, k).value;
    CountSplits(xs, m, i + 1, k, from);
    CountZero(xs, m, k, from);
  }

  /** The run that shows 2n - 2 cannot be improved: one exec at 0, n - 2 at 60 s, n - 1 one nanosecond later. */
  ghost function SplitBurst(k: Key, n: nat): seq<Exec>
    requires n >= 2
  {
    seq(2 * n - 2, i => Exec(if i == 0 then 0 else if i <= n - 2 then WINDOW_NS else WINDOW_NS + 1, k, true))
  }

  ghost function SplitBurstStat(n: nat, i: nat): Stat
    requires 1 <= i <= 2 * n - 2 && 2 <= n < U32
  {
    if i <= n - 1 then Stat(0, i) else Stat(WINDOW_NS + 1, i - (n - 1))
  }

  lemma {:induction false} SplitBurstState(k: Key, n: nat, i: nat)
    requires 2 <= n < U32 && 1 <= i <= 2 * n - 2
    ensures TableAt(SplitBurst(k, n), i) == map[k := SplitBurstStat(n, i)]
    decreases i
  {
    var xs := SplitBurst(k, n);
    if i > 1 {
      SplitBurstState(k, n, i - 1);
      assert Bump(SplitBurstStat(n, i - 1), xs[i - 1].now) == SplitBurstStat(n, i);
    }
  }

  lemma {:induction false} CountAll(xs: seq<Exec>, a: nat, i: nat, k: Key)
    requires a <= i <= |xs| && forall x <- xs :: Hit(x, k, 0)
    ensures Count(xs, a, i, k, 0) == i - a
    decreases i
  {
    if a < i { CountAll(xs, a, i - 1, k); }
  }

  /** Tightness: for every n, 2n - 3 delivered execs within one nanosecond can all report less than n. */
  lemma BurstBoundTight(k: Key, n: nat)
    requires 2 <= n < U32
    ensures var xs := SplitBurst(k, n);
            && Monotone(xs)
            && Count(xs, 1, |xs|, k, 0) == 2 * n - 3
            && xs[|xs| - 1].now <= xs[1].now + 1
            && (forall i :: 0 <= i < |xs| ==> ReportAt(xs, i).Some? && ReportAt(xs, i).value < n)
  {
    var xs := SplitBurst(k, n);
    CountAll(xs, 1, |xs|, k);
    forall i | 0 <= i < |xs| ensures ReportAt(xs, i).Some? && ReportAt(xs, i).value < n {
      SplitBurstState(k, n, i + 1);
      if i > 0 {
        SplitBurstState(k, n, i);
      }
    }
  }

  /** The other half of the table condition: a key refused by a full table is reported as 1 for ever. */
  lemma {:induction false} FullTableBlind(xs: seq<Exec>, a: nat, i: nat, k: Key)
    requires a <= i <= |xs|
    requires k !in TableAt(xs, a) && |TableAt(xs, a)| >= 8192
    ensures k !in TableAt(xs, i) && |TableAt(xs, i)| >= 8192
    ensures i < |xs| && xs[i].key == k && xs[i].reserved ==> ReportAt(xs, i) == Some(1)
    decreases i
  {
    if a < i {
      FullTableBlind(xs, a, i - 1, k);
      var s, s', x := TableAt(xs, i - 1), TableAt(xs, i), xs[i - 1];
      if x.reserved && x.key in s {
        assert s'.Keys == s.Keys;
        assert |s'.Keys| == |s'| && |s.Keys| == |s|;
      }
    }
  }
}
