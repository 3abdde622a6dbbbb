/** execguard, user side: basename, the shell list, severity grading and command-line clean-up. */
module ExecSeverity {
  import opened Prelude
  import opened ExecWindow

  datatype Severity = Info | Warn | Alert

  /** The part of the kernel's event that grading reads; the strings are C strings. */
  datatype ExecEvent = ExecEvent(uid: u32, execCount: u32, comm: string, binaryPath: string)

  const BAD_NAMES := 17

  /** The list of shell-like names, by index. */
  function BadName(i: nat): string
    requires i < BAD_NAMES
  {
    match i
    case 0 => "sh" case 1 => "bash" case 2 => "dash" case 3 => "zsh" case 4 => "su"
    case 5 => "toybox" case 6 => "busybox" case 7 => "nc" case 8 => "netcat" case 9 => "ncat"
    case 10 => "curl" case 11 => "wget" case 12 => "python" case 13 => "python3"
    case 14 => "perl" case 15 => "php" case _ => "node"
  }

  ghost predicate Shellish(name: string) {
    exists i :: 0 <= i < BAD_NAMES && BadName(i) == name
  }

  /** Shell-like names that are an alert as soon as a non-root user runs them. */
  ghost predicate AlertName(name: string) {
    name == "su" || name == "sh" || name == "bash" || name == "toybox" || name == "busybox"
  }

  /** Severity, as a function of what it depends on. */
  function GradeBy(shellish: bool, alertName: bool, uid: u32, execCount: u32): Severity {
    if shellish then if alertName && uid != 0 then Alert else Warn
    else if execCount >= 20 then Alert else if execCount >= 12 then Warn else Info
  }

  /** No slash at or after `start`, and one just before it unless it is the beginning. */
  predicate BaseStarts(path: string, start: nat) {
    && start <= |path|
    && (forall j :: start <= j < |path| ==> path[j] != '/')
    && (start == 0 || path[start - 1] == '/')
  }

  /** `base` is what follows the last slash, or the whole path without one. */
  ghost predicate IsBasename(path: string, base: string) {
    exists start: nat :: BaseStarts(path, start) && base == path[start..]
  }

  /** Where the basename of path[..n] starts. */
  function StartFrom(path: string, n: nat): (start: nat)
    requires n <= |path|
    ensures start <= n && (start == 0 || path[start - 1] == '/')
    ensures forall j :: start <= j < n ==> path[j] != '/'
  {
    if n == 0 || path[n - 1] == '/' then n else StartFrom(path, n - 1)
  }

  function Basename(path: string): (base: string)
    ensures IsBasename(path, base)
  {
    assert BaseStarts(path, StartFrom(path, |path|));
    path[StartFrom(path, |path|)..]
  }

  lemma StartUnique(path: string, a: nat, b: nat)
    requires BaseStarts(path, a) && BaseStarts(path, b)
    ensures a == b
  {
    assert a > 0 ==> path[a - 1] == '/';
    assert b > 0 ==> path[b - 1] == '/';
  }

  lemma BasenameUnique(path: string, a: string, b: string)
    requires IsBasename(path, a) && IsBasename(path, b)
    ensures a == b
  {
    var m: nat :| BaseStarts(path, m) && a == path[m..];
    var n: nat :| BaseStarts(path, n) && b == path[n..];
    StartUnique(path, m, n);
  }

  /** The basename is empty exactly for an empty path and a path that ends with a slash. */
  lemma EmptyBasename(path: string)
    ensures Basename(path) == "" <==> path == "" || path[|path| - 1] == '/'
  {
    var start := StartFrom(path, |path|);
  }

  method BasenameOf(path: string) returns (base: string)
    ensures base == Basename(path)
  {
    if path == "" {
      return "";
    }
    var start := 0;
    for i := 0 to |path|
      invariant start <= i && (start == 0 || path[start - 1] == '/')
      invariant forall j :: start <= j < i ==> path[j] != '/'
    {
      if path[i] == '/' {
        start := i + 1;
      }
    }
    base := path[start..];
    StartUnique(path, start, StartFrom(path, |path|));
  }

  method IsShellish(name: string) returns (shellish: bool)
    ensures shellish <==> Shellish(name)
  {
    for i := 0 to BAD_NAMES
      invariant forall j :: 0 <= j < i ==> BadName(j) != name
    {
      if name == BadName(i) {
        return true;
      }
    }
    return false;
  }

  /** The list, name by name. */
  lemma ShellNames(name: string)
    ensures Shellish(name) <==>
            || name == "sh" || name == "bash" || name == "dash" || name == "zsh" || name == "su" || name == "toybox"
            || name == "busybox" || name == "nc" || name == "netcat" || name == "ncat" || name == "curl" || name == "wget"
            || name == "python" || name == "python3" || name == "perl" || name == "php" || name == "node"
  {
    assert BadName(0) == "sh" && BadName(1) == "bash" && BadName(2) == "dash" && BadName(3) == "zsh" && BadName(4) == "su";
    assert BadName(5) == "toybox" && BadName(6) == "busybox" && BadName(7) == "nc" && BadName(8) == "netcat";
    assert BadName(9) == "ncat" && BadName(10) == "curl" && BadName(11) == "wget" && BadName(12) == "python";
    assert BadName(13) == "python3" && BadName(14) == "perl" && BadName(15) == "php" && BadName(16) == "node";
  }

  /** The name an event is graded by. */
  function GradedName(e: ExecEvent): string {
    if Basename(e.binaryPath) == "" then Basename(e.comm) else Basename(e.binaryPath)
  }

  method SeverityFor(e: ExecEvent) returns (severity: Severity)
    ensures severity == Grade(e)
  {
    var base := BasenameOf(e.binaryPath);
    if base == "" {
      base := BasenameOf(e.comm);
    }
    severity := SeverityOfName(base, e.uid, e.execCount);
  }

  method SeverityOfName(base: string, uid: u32, execCount: u32) returns (severity: Severity)
    ensures severity == GradeBy(Shellish(base), AlertName(base), uid, execCount)
  {
    var shellish := IsShellish(base);
    if shellish {
      if base == "su" && uid != 0 {
        return Alert;
      }
      if (base == "sh" || base == "bash" || base == "toybox" || base == "busybox") && uid != 0 {
        return Alert;
      }
      return Warn;
    }
    if execCount >= 20 {
      return Alert;
    }
    if execCount >= 12 {
      return Warn;
    }
    return Info;
  }

  ghost function Grade(e: ExecEvent): Severity {
    GradeBy(Shellish(GradedName(e)), AlertName(GradedName(e)), e.uid, e.execCount)
  }

  /** The event an exec of `k` emits, as grading sees it: the path field repeats comm. */
  function Delivered(k: Key, count: u32): ExecEvent {
    ExecEvent(k.uid, count, k.comm, k.comm)
  }

  ghost predicate RateGraded(k: Key) {
    !Shellish(GradedName(Delivered(k, 0)))
  }

  /** For a name off the shell list the grade is the count alone. */
  lemma GradeIsRate(k: Key, n: u32)
    requires RateGraded(k)
    ensures Grade(Delivered(k, n)) == GradeBy(false, false, k.uid, n)
  {
    assert GradedName(Delivered(k, n)) == GradedName(Delivered(k, 0));
  }

  /** Some exec of `k` in xs[a..b] emits an event graded `least` or worse. */
  ghost predicate Raises(xs: seq<Exec>, a: nat, b: nat, k: Key, least: Severity)
    requires b <= |xs|
  {
    exists n: u32 :: (least == Grade(Delivered(k, n)) || Grade(Delivered(k, n)) == Alert) && EmitsExactly(xs, a, b, k, n)
  }

  ghost predicate EmitsExactly(xs: seq<Exec>, a: nat, b: nat, k: Key, n: u32)
    requires b <= |xs|
  {
    exists at :: a <= at < b && xs[at].key == k && ReportAt(xs, at) == Some(n)
  }

  /** The two-sided detection theorem, first side: 38 delivered execs of one key inside a closed 60 s
      interval raise an ALERT, and 22 at least a WARN, unless the name is on the shell list. */
  lemma BurstGraded(xs: seq<Exec>, a: nat, b: nat, k: Key)
    requires Monotone(xs) && |xs| < U32
    requires a < b <= |xs| && xs[b - 1].now <= xs[a].now + 60_000_000_000
    requires xs[a].reserved && xs[a].key == k && RateGraded(k)
    requires k in TableAt(xs, a) || |TableAt(xs, a)| < 8192
    ensures Count(xs, a, b, k, 0) >= 38 ==> Raises(xs, a, b, k, Alert)
    ensures Count(xs, a, b, k, 0) >= 22 ==> Raises(xs, a, b, k, Warn)
  {
    if Count(xs, a, b, k, 0) >= 22 {
      BurstReported(xs, a, b, if Count(xs, a, b, k, 0) >= 38 then 20 else 12);
      var at :| a <= at < b && xs[at].key == k && ReportAt(xs, at).Some?
                && ReportAt(xs, at).value >= if Count(xs, a, b, k, 0) >= 38 then 20 else 12;
      GradeIsRate(k, ReportAt(xs, at).value);
      assert EmitsExactly(xs, a, b, k, ReportAt(xs, at).value);
    }
  }

  /** The bounds are tight: 37 execs within a nanosecond may stay below ALERT and 21 may stay INFO. */
  lemma BurstGradedTight(k: Key)
    requires RateGraded(k)
    ensures var xs := SplitBurst(k, 20);
            && Monotone(xs) && Count(xs, 1, 38, k, 0) == 37 && xs[37].now <= xs[1].now + 1
            && !Raises(xs, 0, 38, k, Alert)
    ensures var xs := SplitBurst(k, 12);
            && Monotone(xs) && Count(xs, 1, 22, k, 0) == 21 && xs[21].now <= xs[1].now + 1
            && !Raises(xs, 0, 22, k, Warn)
  {
    BurstBoundTight(k, 20);
    BurstBoundTight(k, 12);
    forall n: u32 ensures Grade(Delivered(k, n)) == GradeBy(false, false, k.uid, n) {
      GradeIsRate(k, n);
    }
  }

  /** Second side: an ALERT on a name off the shell list is backed by 20 delivered execs of that key in
      the last 60 s, a WARN by 12. */
  lemma AlertsAreReal(xs: seq<Exec>, i: nat, k: Key)
    requires Monotone(xs) && i < |xs| && ReportAt(xs, i).Some?
    requires xs[i].key == k && RateGraded(k)
    ensures var grade, n := Grade(Delivered(k, ReportAt(xs, i).value)), Count(xs, 0, i + 1, k, xs[i].now - 60_000_000_000);
            && (grade == Alert ==> n >= 20)
            && (grade != Info ==> n >= 12)
  {
    NeverOvercounts(xs, i);
    GradeIsRate(k, ReportAt(xs, i).value);
  }

  /** Exactly when the rate raises a grade: an ALERT comes if and only if 20 execs of the key were delivered since the
      window's opener, a WARN at least if and only if 12 were. That is the rate of the last 60 s unless some exec in
      those 60 s came before the opener. */
  lemma RateGradeExactlyWhen(xs: seq<Exec>, i: nat, k: Key)
    requires Monotone(xs) && |xs| < U32 && i < |xs| && Counted(xs, i)
    requires xs[i].key == k && RateGraded(k)
    ensures var m, from := Opener(xs, i + 1, k), xs[i].now - 60_000_000_000;
            && m.Some? && ReportAt(xs, i).Some?
            && var grade := Grade(Delivered(k, ReportAt(xs, i).value));
               && (grade == Alert <==> Count(xs, m.value, i + 1, k, 0) >= 20)
               && (grade != Info <==> Count(xs, m.value, i + 1, k, 0) >= 12)
               && ((forall j :: 0 <= j < m.value ==> !Hit(xs[j], k, from)) ==>
                     && (grade == Alert <==> Count(xs, 0, i + 1, k, from) >= 20)
                     && (grade != Info <==> Count(xs, 0, i + 1, k, from) >= 12))
  {
    ReportedSinceOpener(xs, i);
    RateExactlyWhen(xs, i);
    GradeIsRate(k, ReportAt(xs, i).value);
  }

  /** A name on the shell list is graded by name and user alone: no number of execs turns its WARN into an ALERT. */
  lemma ShellGradeIgnoresRate(e: ExecEvent, n: u32)
    requires Shellish(GradedName(e))
    ensures Grade(e.(execCount := n)) == Grade(e) != Info
    ensures Grade(e) == Alert <==>
            e.uid != 0 && (GradedName(e) == "su" || GradedName(e) == "sh" || GradedName(e) == "bash"
                           || GradedName(e) == "toybox" || GradedName(e) == "busybox")
  {
    assert GradedName(e.(execCount := n)) == GradedName(e);
  }

  /** The path is graded unless it is empty or ends with a slash; then the command name is. */
  lemma GradedNameExactly(e: ExecEvent)
    ensures GradedName(e) ==
            if e.binaryPath == "" || e.binaryPath[|e.binaryPath| - 1] == '/' then Basename(e.comm) else Basename(e.binaryPath)
  {
    EmptyBasename(e.binaryPath);
  }

  // ---- command lines ----

  predicate IsControl(c: byte) { c < 32 || c == 127 }

  function Printable(c: byte): byte { if IsControl(c) then 32 else c }

  function Blanked(src: seq<byte>): (r: seq<byte>)
    ensures |r| == |src|
    ensures forall i :: 0 <= i < |r| ==> r[i] == Printable(src[i])
  {
    seq(|src|, i requires 0 <= i < |src| => Printable(src[i]))
  }

  function TrimRight(s: seq<byte>): (r: seq<byte>)
    ensures r <= s
    ensures r == [] || r[|r| - 1] != 32
    ensures forall i :: |r| <= i < |s| ==> s[i] == 32
  {
    if s != [] && s[|s| - 1] == 32 then TrimRight(s[..|s| - 1]) else s
  }

  /** What a clean command line is, for a destination of `size` bytes. */
  function Cleaned(src: seq<byte>, size: nat): seq<byte>
    requires size > 0
  {
    TrimRight(Blanked(src[..Min(|src|, size - 1)]))
  }

  lemma TrimRightIs(s: seq<byte>, n: nat)
    requires n <= |s| && (n == 0 || s[n - 1] != 32)
    requires forall i :: n <= i < |s| ==> s[i] == 32
    ensures TrimRight(s) == s[..n]
  {
    var r := TrimRight(s);
    assert |r| == n;
  }

  /** A buffer that holds the blanked text, cut where only blanks follow, holds the cleaned text. */
  lemma CutIsCleaned(buf: seq<byte>, s: seq<byte>, j: nat)
    requires |buf| > 0 && j <= Min(|s|, |buf| - 1)
    requires forall k :: 0 <= k < Min(|s|, |buf| - 1) ==> buf[k] == Printable(s[k])
    requires forall k :: j <= k < Min(|s|, |buf| - 1) ==> buf[k] == 32
    requires j == 0 || buf[j - 1] != 32
    ensures CStr(buf[j := 0]) == Cleaned(s, |buf|)
  {
    hide CStr;
    var copied := Blanked(s[..Min(|s|, |buf| - 1)]);
    assert forall k :: 0 <= k < |copied| ==> copied[k] == buf[k];
    TrimRightIs(copied, j);
    assert buf[j := 0][..j] == copied[..j];
    assert 0 !in copied[..j];
    CStrIs(buf[j := 0], j);
  }

  /** `src` is the first src_len bytes of the source, or None for a null pointer. */
  method NormalizeCmdline(dst: array<byte>, src: Option<seq<byte>>)
    modifies dst
    ensures dst.Length > 0 ==> CStr(dst[..]) == Cleaned(if src.Some? then src.value else [], dst.Length)
  {
    if dst.Length == 0 {
      return;
    }
    dst[0] := 0;
    if src.None? || |src.value| == 0 {
      return;
    }
    var s := src.value;
    var i, j := 0, 0;
    while i < |s| && j + 1 < dst.Length
      invariant i == j <= |s| && j < dst.Length
      invariant forall k :: 0 <= k < j ==> dst[k] == Printable(s[k])
    {
      var c := s[i];
      if c == 0 {
        c := 32;
      }
      if IsControl(c) && c != 32 {
        c := 32;
      }
      dst[j] := c;
      i, j := i + 1, j + 1;
    }
    while j > 0 && dst[j - 1] == 32
      invariant j <= i
      invariant forall k :: j <= k < i ==> dst[k] == 32
    {
      j := j - 1;
    }
    CutIsCleaned(dst[..], s, j);
    dst[j] := 0;
  }

  /** Byte by byte: what is kept is kept in place, bytes below 32 and 127 become blanks, and all that is cut off the end
      is blanks or such bytes, or does not fit. */
  lemma CleanedByByte(src: seq<byte>, size: nat)
    requires size > 0
    ensures var r := Cleaned(src, size);
            && |r| <= |src| && |r| <= size - 1
            && (forall i :: 0 <= i < |r| && 32 <= src[i] != 127 ==> r[i] == src[i])
            && (forall i :: 0 <= i < |r| && (src[i] < 32 || src[i] == 127) ==> r[i] == 32)
            && (forall i :: |r| <= i < |src| && i < size - 1 ==> src[i] <= 32 || src[i] == 127)
            && (r != [] ==> r[|r| - 1] != 32)
  {
    var kept := Blanked(src[..Min(|src|, size - 1)]);
    forall i | |Cleaned(src, size)| <= i < |kept| ensures src[i] <= 32 || src[i] == 127 {
      assert kept[i] == 32;
    }
  }

  /** Cleaning leaves only printable bytes, no trailing blank, and text that cleaning again does not change. */
  lemma CleanedIsStable(src: seq<byte>, size: nat)
    requires size > 0
    ensures var r := Cleaned(src, size);
            && |r| < size
            && (forall c <- r :: !IsControl(c))
            && Cleaned(r, size) == r
  {
    var r := Cleaned(src, size);
    assert Blanked(r) == r;
    assert r[..Min(|r|, size - 1)] == r;
  }
}
