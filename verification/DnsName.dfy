/** pksniff, kernel side: the label walk that fills dns_name (RFC 1035 sections 3.1 and 4.1.2). */
module DnsName {
  import opened Prelude

  const MAX_DNS_NAME: nat := 64
  const MAX_LABELS: nat := 8
  const LABEL_KEEP: nat := 4
  const DNS_HEADER: nat := 12
  const DOT: byte := 46

  /** A pass of the label loop finds a label at `pos`: neither the end of the frame, nor the root,
      nor a compression pointer (both top bits set). */
  predicate Labelled(frame: Frame, pos: nat) {
    pos < |frame| && frame[pos] != 0 && frame[pos] / 64 != 3
  }

  /** The label lies inside the frame, so that another pass follows. */
  predicate Complete(frame: Frame, pos: nat) {
    Labelled(frame, pos) && pos + 1 + frame[pos] <= |frame|
  }

  /** The bytes one pass keeps of the label at `pos`. */
  ghost function Chunk(frame: Frame, pos: nat): (c: seq<byte>)
    requires Complete(frame, pos)
    ensures |c| == Min(frame[pos], LABEL_KEEP)
  {
    frame[pos + 1..pos + 1 + Min(frame[pos], LABEL_KEEP)]
  }

  /** Where the next pass starts. */
  function Next(frame: Frame, pos: nat): (next: nat)
    requires Complete(frame, pos)
    ensures pos < next <= |frame| && next <= pos + 256
  {
    pos + 1 + frame[pos]
  }

  /** The bytes that `n` passes write after the first one, from `pos` on. */
  ghost function LaterText(frame: Frame, pos: nat, n: nat): seq<byte>
    decreases |frame| - pos
  {
    if n == 0 || !Labelled(frame, pos) then []
    else if !Complete(frame, pos) then [DOT]
    else [DOT] + (Chunk(frame, pos) + LaterText(frame, Next(frame, pos), n - 1))
  }

  /** The bytes the whole walk writes from `pos` on, for any frame whatever. */
  ghost function DnsText(frame: Frame, pos: nat): seq<byte>
  {
    if Complete(frame, pos) then Chunk(frame, pos) + LaterText(frame, Next(frame, pos), MAX_LABELS - 1) else []
  }

  /** Where the position of `n` passes ends up; the length byte of a label cut off by the frame's end is passed. */
  ghost function LabelStop(frame: Frame, pos: nat, n: nat): nat
    decreases |frame| - pos
  {
    if n == 0 then pos
    else if Complete(frame, pos) then LabelStop(frame, Next(frame, pos), n - 1)
    else PassedTo(frame, pos)
  }

  function PassedTo(frame: Frame, pos: nat): nat {
    if Labelled(frame, pos) then pos + 1 else pos
  }

  lemma {:induction false} LabelStopBound(frame: Frame, pos: nat, n: nat)
    ensures LabelStop(frame, pos, n) <= pos + 256 * n
    decreases n
  {
    if n > 0 && Complete(frame, pos) { LabelStopBound(frame, Next(frame, pos), n - 1); }
  }

  lemma {:induction false} LaterTextBound(frame: Frame, pos: nat, n: nat)
    ensures |LaterText(frame, pos, n)| <= 5 * n
    decreases n
  {
    if n > 0 && Complete(frame, pos) {
      LaterTextBound(frame, Next(frame, pos), n - 1);
    }
  }

  /** Whatever the frame, the walk writes at most 39 bytes. */
  lemma DnsTextBound(frame: Frame, pos: nat)
    ensures |DnsText(frame, pos)| <= 39
  {
    if Complete(frame, pos) {
      LaterTextBound(frame, Next(frame, pos), MAX_LABELS - 1);
    }
  }

  /** A buffer after a string and its NUL were written over its front. */
  function Overwritten(buf: seq<byte>, text: seq<byte>): (r: seq<byte>)
    requires |text| < |buf|
    ensures |r| == |buf|
  {
    text + [0] + buf[|text| + 1..]
  }

  /** Appends the byte at `at` when the load succeeds. */
  method AppendByte(frame: Frame, at: nat, out: array<byte>, outPos: nat) returns (next: nat)
    requires outPos < out.Length
    modifies out
    ensures if at < |frame| then next == outPos + 1 && out[outPos] == frame[at] else next == outPos
    ensures forall k :: 0 <= k < out.Length && (k < outPos || next <= k) ==> out[k] == old(out[k])
  {
    next := outPos;
    var ch := Load(frame, at, 1);
    if ch.Some? {
      out[outPos] := ch.value[0];
      next := outPos + 1;
    }
  }

  /** The unrolled copy of a label's first bytes. */
  method AppendLabel(frame: Frame, pos: nat, len: byte, out: array<byte>, outPos: nat) returns (next: nat)
    requires len > 0 && pos + len <= |frame| && outPos + LABEL_KEEP < out.Length
    modifies out
    ensures next == outPos + Min(len, LABEL_KEEP)
    ensures forall k :: outPos <= k < next ==> out[k] == frame[pos + (k - outPos)]
    ensures forall k :: 0 <= k < out.Length && (k < outPos || next <= k) ==> out[k] == old(out[k])
  {
    next := AppendByte(frame, pos, out, outPos);
    if len > 1 && next < out.Length - 1 {
      next := AppendByte(frame, pos + 1, out, next);
    }
    if len > 2 && next < out.Length - 1 {
      next := AppendByte(frame, pos + 2, out, next);
    }
    if len > 3 && next < out.Length - 1 {
      next := AppendByte(frame, pos + 3, out, next);
    }
  }

  /** What one pass writes. */
  ghost function Written(frame: Frame, pos: nat, later: bool): seq<byte> {
    if !Labelled(frame, pos) then []
    else if !Complete(frame, pos) then if later then [DOT] else []
    else if later then [DOT] + Chunk(frame, pos) else Chunk(frame, pos)
  }

  /** From `at` on, `text` is what `n` more passes write. */
  ghost predicate Fits(frame: Frame, pos: nat, n: nat, text: seq<byte>, at: nat)
    decreases |frame| - pos
  {
    if n == 0 then at == |text|
    else
      var w := Written(frame, pos, n < MAX_LABELS);
      && At(text, at, w)
      && if Complete(frame, pos) then Fits(frame, Next(frame, pos), n - 1, text, at + |w|) else at + |w| == |text|
  }

  lemma AtRegroup(text: seq<byte>, at: nat, a: seq<byte>, b: seq<byte>, c: seq<byte>)
    requires At(text, at, a + (b + c))
    ensures At(text, at, a + b) && At(text, at + |a + b|, c)
  {
    assert a + (b + c) == (a + b) + c;
    AtSplit(text, at, a + b, c);
  }

  lemma {:induction false} LaterFits(frame: Frame, pos: nat, n: nat, text: seq<byte>, at: nat)
    requires n < MAX_LABELS && At(text, at, LaterText(frame, pos, n)) && |text| == at + |LaterText(frame, pos, n)|
    ensures Fits(frame, pos, n, text, at)
    decreases n
  {
    if n > 0 && Complete(frame, pos) {
      var chunk, rest := Chunk(frame, pos), LaterText(frame, Next(frame, pos), n - 1);
      AtRegroup(text, at, [DOT], chunk, rest);
      LaterFits(frame, Next(frame, pos), n - 1, text, at + |[DOT] + chunk|);
    }
  }

  lemma TextFits(frame: Frame, pos: nat)
    ensures Fits(frame, pos, MAX_LABELS, DnsText(frame, pos), 0)
  {
    var text := DnsText(frame, pos);
    if Complete(frame, pos) {
      var chunk, rest := Chunk(frame, pos), LaterText(frame, Next(frame, pos), MAX_LABELS - 1);
      assert At(text, 0, chunk + rest);
      AtSplit(text, 0, chunk, rest);
      LaterFits(frame, Next(frame, pos), MAX_LABELS - 1, text, |chunk|);
    }
  }

  /** One pass of the label loop; `more` is false where the loop breaks. */
  method ParseLabel(frame: Frame, pos: nat, nth: nat, out: array<byte>, outPos: nat)
    returns (more: bool, nextPos: nat, next: nat)
    requires outPos + LABEL_KEEP + 1 < out.Length
    modifies out
    ensures more == Complete(frame, pos)
    ensures nextPos == if more then Next(frame, pos) else PassedTo(frame, pos)
    ensures var w := Written(frame, pos, nth > 0);
            && next == outPos + |w| && |w| <= (if nth > 0 then 5 else 4)
            && forall k :: outPos <= k < next ==> out[k] == w[k - outPos]
    ensures forall k :: 0 <= k < out.Length && (k < outPos || next <= k) ==> out[k] == old(out[k])
  {
    more, nextPos, next := false, pos, outPos;
    if pos + 1 > |frame| || outPos >= out.Length - 1 {
      return;
    }
    var loaded := Load(frame, pos, 1);
    if loaded.None? {
      return;
    }
    var len := loaded.value[0];
    if len == 0 || len / 64 == 3 {
      return;
    }
    nextPos := pos + 1;
    if nth > 0 && next < out.Length - 1 {
      out[next] := DOT;
      next := next + 1;
    }
    if nextPos + len > |frame| {
      return;
    }
    ghost var from, c := next, Chunk(frame, pos);
    next := AppendLabel(frame, nextPos, len, out, next);
    assert forall k :: from <= k < next ==> out[k] == frame[pos + 1 + (k - from)] == c[k - from];
    assert nth > 0 ==> forall k :: from <= k < next ==> out[k] == ([DOT] + c)[k - outPos];
    more, nextPos := true, nextPos + len;
  }

  /** What is ahead of the loop: the rest of the text and the final position. */
  ghost predicate Ahead(frame: Frame, pos: nat, n: nat, text: seq<byte>, at: nat, last: nat) {
    at <= |text| && Fits(frame, pos, n, text, at) && last == LabelStop(frame, pos, n)
  }

  lemma AheadStep(frame: Frame, pos: nat, n: nat, text: seq<byte>, at: nat, last: nat)
    requires n > 0 && Ahead(frame, pos, n, text, at, last)
    ensures var w := Written(frame, pos, n < MAX_LABELS);
            && At(text, at, w)
            && if Complete(frame, pos) then Ahead(frame, Next(frame, pos), n - 1, text, at + |w|, last)
               else at + |w| == |text| && last == PassedTo(frame, pos)
  {
  }

  ghost predicate StartsWith(out: array<byte>, text: seq<byte>, n: nat)
    reads out
  {
    n <= |text| && n <= out.Length && forall k :: 0 <= k < n ==> out[k] == text[k]
  }

  /** One pass, seen from the whole text. */
  method ExtendName(frame: Frame, pos: nat, n: nat, out: array<byte>, outPos: nat, ghost text: seq<byte>, ghost last: nat)
    returns (more: bool, nextPos: nat, next: nat)
    requires 0 < n <= MAX_LABELS && outPos + LABEL_KEEP + 1 < out.Length
    requires StartsWith(out, text, outPos) && Ahead(frame, pos, n, text, outPos, last)
    modifies out
    ensures StartsWith(out, text, next) && outPos <= next <= outPos + (if n < MAX_LABELS then 5 else 4)
    ensures if more then Ahead(frame, nextPos, n - 1, text, next, last) else next == |text| && nextPos == last
    ensures forall k :: next <= k < out.Length ==> out[k] == old(out[k])
  {
    AheadStep(frame, pos, n, text, outPos, last);
    more, nextPos, next := ParseLabel(frame, pos, MAX_LABELS - n, out, outPos);
    ghost var w := Written(frame, pos, n < MAX_LABELS);
    forall k | 0 <= k < next ensures out[k] == text[k] {
      if k >= outPos { assert text[outPos + (k - outPos)] == w[k - outPos]; }
    }
  }

  /** The label loop; `stop` is its final position. */
  method WalkLabels(frame: Frame, off: u16, out: array<byte>, ghost text: seq<byte>, ghost last: nat)
    returns (outPos: nat, stop: nat)
    requires out.Length == MAX_DNS_NAME && Ahead(frame, off + DNS_HEADER, MAX_LABELS, text, 0, last)
    modifies out
    ensures StartsWith(out, text, outPos) && outPos == |text| && stop == last
    ensures forall k :: outPos <= k < out.Length ==> out[k] == old(out[k])
  {
    hide Ahead;
    stop := off + DNS_HEADER;
    outPos := 0;
    var left: nat := MAX_LABELS;
    while left > 0
      invariant left <= MAX_LABELS && outPos <= 5 * (MAX_LABELS - left)
      invariant Ahead(frame, stop, left, text, outPos, last)
      invariant StartsWith(out, text, outPos)
      invariant forall k :: outPos <= k < out.Length ==> out[k] == old(out[k])
    {
      var more;
      more, stop, outPos := ExtendName(frame, stop, left, out, outPos, text, last);
      if !more {
        return;
      }
      left := left - 1;
    }
    AheadNone(frame, stop, text, outPos, last);
  }

  lemma AheadNone(frame: Frame, pos: nat, text: seq<byte>, at: nat, last: nat)
    requires Ahead(frame, pos, 0, text, at, last)
    ensures at == |text| && last == pos
  {
  }

  lemma TextAhead(frame: Frame, pos: nat)
    ensures Ahead(frame, pos, MAX_LABELS, DnsText(frame, pos), 0, LabelStop(frame, pos, MAX_LABELS))
    ensures |DnsText(frame, pos)| <= 39 && LabelStop(frame, pos, MAX_LABELS) <= pos + 2048
  {
    TextFits(frame, pos);
    DnsTextBound(frame, pos);
    LabelStopBound(frame, pos, MAX_LABELS);
  }

  /** For every frame whatever, at most 39 bytes are written before the NUL, so no write leaves the buffer, and the
      position moves at most 2048 further on, far from wrapping around in 32 bits. */
  method ParseDnsName(frame: Frame, off: u16, out: array<byte>) returns (ghost last: nat)
    requires out.Length == MAX_DNS_NAME
    modifies out
    ensures |DnsText(frame, off + DNS_HEADER)| <= 39
    ensures out[..] == Overwritten(old(out[..]), DnsText(frame, off + DNS_HEADER))
    ensures last == LabelStop(frame, off + DNS_HEADER, MAX_LABELS) <= off + DNS_HEADER + 2048
  {
    TextAhead(frame, off + DNS_HEADER);
    ghost var text := DnsText(frame, off + DNS_HEADER);
    last := LabelStop(frame, off + DNS_HEADER, MAX_LABELS);
    var outPos, stop := WalkLabels(frame, off, out, text, last);
    if outPos < out.Length {
      out[outPos] := 0;
    }
    assert out[..] == Overwritten(old(out[..]), text);
  }

  // ---- well-formed names ----

  /** Labels as the walk takes them, with a length byte from 1 to 191; RFC 1035 allows up to 63. */
  ghost predicate AllLabels(labels: seq<seq<byte>>) {
    forall i :: 0 <= i < |labels| ==> 1 <= |labels[i]| < 192
  }

  /** Length-prefixed labels. */
  ghost function EncodeLabels(labels: seq<seq<byte>>): seq<byte>
    requires AllLabels(labels)
  {
    if labels == [] then [] else [AsByte(|labels[0]|)] + (labels[0] + EncodeLabels(labels[1..]))
  }

  /** The wire form of an uncompressed name: its labels and the root. */
  ghost function EncodeName(labels: seq<seq<byte>>): seq<byte>
    requires AllLabels(labels)
  {
    EncodeLabels(labels) + [0]
  }

  ghost function DotEach(labels: seq<seq<byte>>): seq<byte> {
    if labels == [] then [] else [DOT] + (labels[0] + DotEach(labels[1..]))
  }

  /** The usual presentation of a name: its labels joined by dots. */
  ghost function DotJoin(labels: seq<seq<byte>>): seq<byte> {
    if labels == [] then [] else labels[0] + DotEach(labels[1..])
  }

  /** The first four bytes of each of the first `n` labels. */
  ghost function Kept(labels: seq<seq<byte>>, n: nat): (r: seq<seq<byte>>)
    ensures |r| == Min(|labels|, n)
    ensures forall i :: 0 <= i < |r| ==> r[i] == labels[i][..Min(|labels[i]|, LABEL_KEEP)]
  {
    if labels == [] || n == 0 then []
    else [labels[0][..Min(|labels[0]|, LABEL_KEEP)]] + Kept(labels[1..], n - 1)
  }

  /** The first four bytes of the first label. */
  function Head(labels: seq<seq<byte>>): seq<byte>
    requires labels != []
  {
    labels[0][..Min(|labels[0]|, LABEL_KEEP)]
  }

  /** One label, read off the frame. */
  lemma FirstLabel(frame: Frame, pos: nat, labels: seq<seq<byte>>)
    requires labels != [] && AllLabels(labels) && At(frame, pos, EncodeLabels(labels))
    ensures Complete(frame, pos) && Chunk(frame, pos) == Head(labels)
    ensures At(frame, Next(frame, pos), EncodeLabels(labels[1..]))
    ensures Next(frame, pos) + |EncodeLabels(labels[1..])| == pos + |EncodeLabels(labels)|
  {
    LabelParts(frame, pos, labels[0], EncodeLabels(labels[1..]));
  }

  lemma LabelParts(frame: Frame, pos: nat, l: seq<byte>, rest: seq<byte>)
    requires 1 <= |l| < 192 && At(frame, pos, [AsByte(|l|)] + (l + rest))
    ensures Complete(frame, pos) && Chunk(frame, pos) == l[..Min(|l|, LABEL_KEEP)]
    ensures At(frame, Next(frame, pos), rest) && Next(frame, pos) == pos + 1 + |l|
  {
    AtSplit(frame, pos, [AsByte(|l|)], l + rest);
    AtSplit(frame, pos + 1, l, rest);
    assert frame[pos + 0] == [AsByte(|l|)][0] == |l|;
    AtPrefix(frame, pos + 1, l, Min(|l|, LABEL_KEEP));
  }

  lemma DotEachKept(labels: seq<seq<byte>>, n: nat)
    requires labels != [] && n > 0
    ensures Kept(labels, n)[0] == Head(labels) && Kept(labels, n)[1..] == Kept(labels[1..], n - 1)
    ensures DotEach(Kept(labels, n)) == [DOT] + (Head(labels) + DotEach(Kept(labels[1..], n - 1)))
  {
    assert Kept(labels, n) == [Head(labels)] + Kept(labels[1..], n - 1);
  }

  /** What the walk shows of the labels after the first. */
  ghost function Shown(labels: seq<seq<byte>>, n: nat): seq<byte> {
    if labels == [] || n == 0 then [] else [DOT] + (Head(labels) + Shown(labels[1..], n - 1))
  }

  lemma {:induction false} ShownIsDotEach(labels: seq<seq<byte>>, n: nat)
    ensures Shown(labels, n) == DotEach(Kept(labels, n))
    decreases n
  {
    if labels != [] && n > 0 {
      DotEachKept(labels, n);
      ShownIsDotEach(labels[1..], n - 1);
    }
  }

  /** The wire form label by label, as the walk meets it. */
  ghost predicate NameAt(frame: Frame, pos: nat, labels: seq<seq<byte>>)
    decreases labels
  {
    if labels == [] then !Labelled(frame, pos)
    else
      && Complete(frame, pos) && Chunk(frame, pos) == Head(labels)
      && NameAt(frame, Next(frame, pos), labels[1..])
  }

  lemma {:induction false} EncodedLabels(frame: Frame, pos: nat, labels: seq<seq<byte>>)
    requires AllLabels(labels) && At(frame, pos, EncodeLabels(labels))
    requires !Labelled(frame, pos + |EncodeLabels(labels)|)
    ensures NameAt(frame, pos, labels)
    decreases labels
  {
    if labels != [] {
      FirstLabel(frame, pos, labels);
      EncodedLabels(frame, Next(frame, pos), labels[1..]);
    }
  }

  lemma {:induction false} LaterLabels(frame: Frame, pos: nat, n: nat, labels: seq<seq<byte>>)
    requires NameAt(frame, pos, labels)
    ensures LaterText(frame, pos, n) == Shown(labels, n)
    decreases n
  {
    if labels != [] && n > 0 {
      LaterLabels(frame, Next(frame, pos), n - 1, labels[1..]);
      var a, b := LaterText(frame, Next(frame, pos), n - 1), Shown(labels[1..], n - 1);
      assert LaterText(frame, pos, n) == [DOT] + (Chunk(frame, pos) + a);
      assert Shown(labels, n) == [DOT] + (Head(labels) + b);
    }
  }

  lemma NameShown(frame: Frame, pos: nat, labels: seq<seq<byte>>)
    requires NameAt(frame, pos, labels)
    ensures DnsText(frame, pos) == DotJoin(Kept(labels, MAX_LABELS))
  {
    if labels != [] {
      LaterLabels(frame, Next(frame, pos), MAX_LABELS - 1, labels[1..]);
      ShownIsDotEach(labels[1..], MAX_LABELS - 1);
      DotEachKept(labels, MAX_LABELS);
    }
  }

  /** For labels that are followed by the root, by a compression pointer (RFC 1035 section 4.1.4) or by the end of the
      frame, the walk writes the dot-join of the first four bytes of the first eight. */
  lemma EndedNameShown(frame: Frame, pos: nat, labels: seq<seq<byte>>)
    requires AllLabels(labels) && At(frame, pos, EncodeLabels(labels))
    requires var end := pos + |EncodeLabels(labels)|; end == |frame| || frame[end] == 0 || frame[end] >= 192
    ensures DnsText(frame, pos) == DotJoin(Kept(labels, 8))
  {
    EncodedLabels(frame, pos, labels);
    NameShown(frame, pos, labels);
  }

  /** For every uncompressed well-formed name the walk writes the dot-join of the first
      four bytes of its first eight labels. */
  lemma WellFormedName(frame: Frame, pos: nat, labels: seq<seq<byte>>)
    requires AllLabels(labels) && At(frame, pos, EncodeName(labels))
    ensures DnsText(frame, pos) == DotJoin(Kept(labels, 8))
  {
    AtSplit(frame, pos, EncodeLabels(labels), [0]);
    assert frame[pos + |EncodeLabels(labels)| + 0] == [0][0];
    EndedNameShown(frame, pos, labels);
  }

  /** Labels after which the frame ends inside one more. */
  ghost predicate CutAt(frame: Frame, pos: nat, labels: seq<seq<byte>>)
    decreases labels
  {
    if labels == [] then Labelled(frame, pos) && !Complete(frame, pos)
    else
      && Complete(frame, pos) && Chunk(frame, pos) == Head(labels)
      && CutAt(frame, Next(frame, pos), labels[1..])
  }

  lemma {:induction false} CutLabels(frame: Frame, pos: nat, labels: seq<seq<byte>>)
    requires AllLabels(labels) && At(frame, pos, EncodeLabels(labels))
    requires var end := pos + |EncodeLabels(labels)|; Labelled(frame, end) && !Complete(frame, end)
    ensures CutAt(frame, pos, labels)
    decreases labels
  {
    if labels != [] {
      FirstLabel(frame, pos, labels);
      CutLabels(frame, Next(frame, pos), labels[1..]);
    }
  }

  lemma {:induction false} LaterCut(frame: Frame, pos: nat, n: nat, labels: seq<seq<byte>>)
    requires CutAt(frame, pos, labels)
    ensures LaterText(frame, pos, n) == Shown(labels, n) + if |labels| < n then [DOT] else []
    decreases n
  {
    if labels != [] && n > 0 {
      LaterCut(frame, Next(frame, pos), n - 1, labels[1..]);
      var a, b := Shown(labels[1..], n - 1), if |labels| < n then [DOT] else [];
      assert LaterText(frame, pos, n) == [DOT] + (Chunk(frame, pos) + (a + b));
      assert [DOT] + (Chunk(frame, pos) + (a + b)) == ([DOT] + (Chunk(frame, pos) + a)) + b;
    }
  }

  /** When the frame ends inside a label, the labels before it are shown as usual, with a dot behind them if there are
      any and fewer than eight. */
  lemma CutNameShown(frame: Frame, pos: nat, labels: seq<seq<byte>>)
    requires AllLabels(labels) && At(frame, pos, EncodeLabels(labels))
    requires var end := pos + |EncodeLabels(labels)|; end < |frame| && 0 < frame[end] < 192 && end + 1 + frame[end] > |frame|
    ensures DnsText(frame, pos) == DotJoin(Kept(labels, 8)) + if 0 < |labels| < 8 then [46] else []
  {
    CutLabels(frame, pos, labels);
    if labels != [] {
      var later := labels[1..];
      var dot := if |labels| < 8 then [DOT] else [];
      LaterCut(frame, Next(frame, pos), MAX_LABELS - 1, later);
      ShownIsDotEach(later, MAX_LABELS - 1);
      DotEachKept(labels, MAX_LABELS);
      assert Head(labels) + (Shown(later, MAX_LABELS - 1) + dot) == (Head(labels) + Shown(later, MAX_LABELS - 1)) + dot;
    }
  }

  /** Every place of every frame is of one of these kinds: some labels, and then one of the endings. */
  lemma {:induction false} EveryNameReads(frame: Frame, pos: nat) returns (labels: seq<seq<byte>>)
    requires pos <= |frame|
    ensures AllLabels(labels) && At(frame, pos, EncodeLabels(labels))
    ensures var end := pos + |EncodeLabels(labels)|;
            || end == |frame| || frame[end] == 0 || frame[end] >= 192
            || end + 1 + frame[end] > |frame|
    decreases |frame| - pos
  {
    labels := [];
    if Complete(frame, pos) {
      var first := frame[pos + 1..pos + 1 + frame[pos]];
      var rest := EveryNameReads(frame, Next(frame, pos));
      labels := [first] + rest;
      LabelJoins(frame, pos, first, EncodeLabels(rest));
      assert labels[1..] == rest && labels[0] == first;
    }
  }

  lemma LabelJoins(frame: Frame, pos: nat, l: seq<byte>, rest: seq<byte>)
    requires pos + 1 + |l| <= |frame| && frame[pos] == |l| && l == frame[pos + 1..pos + 1 + |l|]
    requires At(frame, pos + 1 + |l|, rest)
    ensures At(frame, pos, [AsByte(|l|)] + (l + rest))
  {
    var all := [AsByte(|l|)] + (l + rest);
    forall i | 0 <= i < |all| ensures frame[pos + i] == all[i] {
      if i > |l| { assert all[i] == rest[i - 1 - |l|] == frame[(pos + 1 + |l|) + (i - 1 - |l|)]; }
      else if i > 0 { assert all[i] == l[i - 1]; }
    }
  }

  ghost predicate ShortLabels(labels: seq<seq<byte>>) {
    forall i :: 0 <= i < |labels| ==> |labels[i]| <= LABEL_KEEP
  }

  lemma {:induction false} KeptLength(labels: seq<seq<byte>>, n: nat)
    ensures |DotEach(Kept(labels, n))| <= |DotEach(labels)|
    ensures |DotEach(Kept(labels, n))| == |DotEach(labels)| <==> |labels| <= n && ShortLabels(labels)
    decreases labels
  {
    if labels != [] && n > 0 {
      KeptLength(labels[1..], n - 1);
      DotEachKept(labels, n);
      assert ShortLabels(labels) <==> |labels[0]| <= LABEL_KEEP && ShortLabels(labels[1..]) by {
        assert forall i :: 1 <= i < |labels| ==> labels[i] == labels[1..][i - 1];
      }
    }
  }

  lemma ShortIsKept(labels: seq<seq<byte>>, n: nat)
    requires |labels| <= n && ShortLabels(labels)
    ensures Kept(labels, n) == labels
  {
    assert forall i :: 0 <= i < |labels| ==> Kept(labels, n)[i] == labels[i];
  }

  /** Exactly when the shown name is the whole name: at most eight labels of at most four bytes. */
  lemma NameShownWhole(frame: Frame, pos: nat, labels: seq<seq<byte>>)
    requires AllLabels(labels) && At(frame, pos, EncodeName(labels))
    ensures DnsText(frame, pos) == DotJoin(labels) <==> |labels| <= 8 && forall i :: 0 <= i < |labels| ==> |labels[i]| <= 4
  {
    WellFormedName(frame, pos, labels);
    KeptLength(labels, MAX_LABELS);
    assert |DotEach(labels)| == if labels == [] then 0 else 1 + |DotJoin(labels)|;
    assert |DotEach(Kept(labels, MAX_LABELS))| == if labels == [] then 0 else 1 + |DotJoin(Kept(labels, MAX_LABELS))|;
    if |labels| <= MAX_LABELS && ShortLabels(labels) {
      ShortIsKept(labels, MAX_LABELS);
    }
  }
}
