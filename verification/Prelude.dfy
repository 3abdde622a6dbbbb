/** Machine integers, byte strings and the few library calls every component shares. */
module Prelude {

  datatype Option<+T> = None | Some(value: T)

  const U16: nat := 0x1_0000
  const U32: nat := 0x1_0000_0000
  const U64: nat := 0x1_0000_0000_0000_0000

  type byte = x: int | 0 <= x < 256
  type u16 = x: int | 0 <= x < 0x1_0000
  type u32 = x: int | 0 <= x < 0x1_0000_0000
  type s32 = x: int | -0x8000_0000 <= x < 0x8000_0000
  type u64 = x: int | 0 <= x < 0x1_0000_0000_0000_0000

  function Min(a: int, b: int): int { if a <= b then a else b }

  lemma SubsetSize<T>(a: set<T>, b: set<T>)
    requires a <= b
    ensures |a| <= |b|
  {
    assert b == a + (b - a);
  }

  /** Unsigned 64-bit `now - then`, with the wrap-around C gives it. */
  function Elapsed(now: u64, then_: u64): (d: u64)
    ensures d % U64 == (now - then_) % U64
  {
    if then_ <= now then now - then_ else now - then_ + U64
  }

  /** Unsigned 32-bit increment, wrapping. */
  function Inc32(n: u32): (r: u32)
    ensures r == (n + 1) % U32
  {
    if n + 1 == U32 then 0 else n + 1
  }

  /** The C string held in a buffer: everything before the first NUL. */
  function CStr(s: seq<byte>): (r: seq<byte>)
    ensures |r| <= |s| && r == s[..|r|]
    ensures 0 !in r
    ensures |r| < |s| ==> s[|r|] == 0
  {
    if s == [] || s[0] == 0 then [] else [s[0]] + CStr(s[1..])
  }

  /** `CStr` is the only prefix without NUL that ends at a NUL. */
  lemma {:induction false} CStrIs(s: seq<byte>, n: nat)
    requires n < |s| && s[n] == 0 && 0 !in s[..n]
    ensures CStr(s) == s[..n]
  {
    var r := CStr(s);
    assert forall j :: 0 <= j < n ==> s[j] in s[..n];
    assert forall j :: 0 <= j < |r| ==> s[j] == r[j] && r[j] in r;
  }

  /** Bytes after a NUL do not show. */
  lemma {:induction false} CStrStops(a: seq<byte>, t: seq<byte>)
    requires 0 in a
    ensures CStr(a + t) == CStr(a)
  {
    var r := CStr(a);
    assert a[..|a|] == a;
    assert (a + t)[..|r|] == r;
    CStrIs(a + t, |r|);
  }

  predicate OccursAt(hay: string, needle: string, i: nat) {
    i + |needle| <= |hay| && hay[i..i + |needle|] == needle
  }

  /** `strstr(hay, needle) != NULL`. */
  predicate Contains(hay: string, needle: string) {
    exists i :: 0 <= i <= |hay| && OccursAt(hay, needle, i)
  }

  /** A string contains another exactly when it is that one with something around it. */
  lemma ContainsExactly(hay: string, needle: string)
    ensures Contains(hay, needle) <==> exists a, b :: hay == a + needle + b
  {
    if Contains(hay, needle) {
      var i :| 0 <= i <= |hay| && OccursAt(hay, needle, i);
      assert hay == hay[..i] + needle + hay[i + |needle|..];
    }
    if a, b :| hay == a + needle + b {
      assert hay[|a|..|a| + |needle|] == needle;
      assert OccursAt(hay, needle, |a|);
    }
  }

  // ---- packet bytes ----

  /** A frame: its length fits the kernel's 32-bit skb->len. */
  type Frame = f: seq<byte> | |f| < U32 witness []

  /** `bpf_skb_load_bytes`: fails exactly when the range leaves the frame. */
  function Load(frame: Frame, off: nat, n: nat): Option<seq<byte>> {
    if off + n <= |frame| then Some(frame[off..off + n]) else None
  }

  function AsByte(n: int): byte
    requires 0 <= n < 256
  {
    n
  }

  /** A 16-bit big-endian number. */
  function Be16(hi: byte, lo: byte): u16 { hi * 256 + lo }

  function ToBe16(n: u16): (b: seq<byte>)
    ensures |b| == 2 && Be16(b[0], b[1]) == n
  {
    [AsByte(n / 256), AsByte(n % 256)]
  }

  /** `part` lies in the frame at `pos`. */
  ghost predicate At(frame: seq<byte>, pos: nat, part: seq<byte>) {
    && pos + |part| <= |frame|
    && forall i :: 0 <= i < |part| ==> frame[pos + i] == part[i]
  }

  lemma AtSplit(frame: seq<byte>, pos: nat, a: seq<byte>, b: seq<byte>)
    requires At(frame, pos, a + b)
    ensures At(frame, pos, a) && At(frame, pos + |a|, b)
  {
    assert forall i :: 0 <= i < |a| ==> (a + b)[i] == a[i];
    assert forall i :: 0 <= i < |b| ==> (a + b)[|a| + i] == b[i];
  }

  lemma AtPrefix(frame: seq<byte>, pos: nat, part: seq<byte>, n: nat)
    requires At(frame, pos, part) && n <= |part|
    ensures frame[pos..pos + n] == part[..n]
  {
  }
}
