/** pksniff, kernel side: the processing of one packet, from the Ethernet header to the submitted event. */
module PacketParser {
  import opened Prelude
  import opened Events
  import opened DnsName
  import opened TlsSni
  import opened HttpHint

  const ETH_HEADER: nat := 14
  const ETH_P_IP: u16 := 0x0800
  const ETH_P_ARP: u16 := 0x0806

  /** The first `linear` bytes of the frame are directly accessible (skb->data to skb->data_end). */
  datatype Packet = Packet(frame: Frame, linear: nat, direction: byte, now: u64)

  predicate ValidPacket(p: Packet) { p.linear <= |p.frame| }

  // ---- what a packet says, independently of the scratch event ----

  datatype Layout = Ignored | Arp | Ip(l4Off: nat, payloadOff: nat)

  function Protocol(f: Frame): byte
    requires |f| >= ETH_HEADER + 20
  {
    f[23]
  }

  function Max(a: nat, b: nat): nat { if a < b then b else a }

  /** Where the headers lie (RFC 791 section 3.1, RFC 9293 section 3.1); Ignored when one does not fit. */
  function LayoutOf(p: Packet): Layout
    requires ValidPacket(p)
  {
    if p.linear < ETH_HEADER then Ignored
    else if Num16(p.frame, 12) == ETH_P_ARP then Arp
    else if Num16(p.frame, 12) != ETH_P_IP || p.linear < ETH_HEADER + 20 then Ignored
    else
      var l4 := ETH_HEADER + p.frame[14] % 16 * 4;
      if l4 < ETH_HEADER + 20 || l4 > p.linear then Ignored
      else if Protocol(p.frame) == IPPROTO_TCP then
        if l4 + 20 > p.linear then Ignored
        else
          var payload := l4 + Max(p.frame[l4 + 12] / 16 * 4, 20);
          if payload > p.linear then Ignored else Ip(l4, payload)
      else if Protocol(p.frame) == IPPROTO_UDP then
        if l4 + 8 > p.linear then Ignored else Ip(l4, l4 + 8)
      else Ip(l4, l4)
  }

  function Le32(f: Frame, pos: nat): u32
    requires pos + 4 <= |f|
  {
    f[pos] as int + 0x100 * f[pos + 1] as int + 0x1_0000 * f[pos + 2] as int + 0x100_0000 * f[pos + 3] as int
  }

  function HasPorts(f: Frame): bool
    requires |f| >= ETH_HEADER + 20
  {
    Protocol(f) == IPPROTO_TCP || Protocol(f) == IPPROTO_UDP
  }

  function SrcPort(f: Frame, l: Layout): u16
    requires l.Ip? && |f| >= ETH_HEADER + 20 && (HasPorts(f) ==> l.l4Off + 8 <= |f|)
  {
    if HasPorts(f) then Num16(f, l.l4Off) else 0
  }

  function DstPort(f: Frame, l: Layout): u16
    requires l.Ip? && |f| >= ETH_HEADER + 20 && (HasPorts(f) ==> l.l4Off + 8 <= |f|)
  {
    if HasPorts(f) then Num16(f, l.l4Off + 2) else 0
  }

  /** RFC 791 and RFC 9293 arithmetic of every accepted packet. */
  lemma LayoutBounds(p: Packet)
    requires ValidPacket(p) && LayoutOf(p).Ip?
    ensures var l := LayoutOf(p);
            && 34 <= l.l4Off <= l.payloadOff <= 134 && l.payloadOff <= p.linear
            && (HasPorts(p.frame) ==> l.l4Off + 8 <= p.linear)
            && (Protocol(p.frame) == IPPROTO_TCP ==> l.l4Off + 20 <= l.payloadOff)
  {
  }

  /** The application-layer tag. */
  ghost function TagOf(p: Packet): byte
    requires ValidPacket(p) && LayoutOf(p).Ip?
  {
    LayoutBounds(p);
    var f, l := p.frame, LayoutOf(p);
    var src, dst := SrcPort(f, l), DstPort(f, l);
    if Protocol(f) == IPPROTO_ICMP then APP_ICMP
    else if Protocol(f) == IPPROTO_UDP && (src == 53 || dst == 53) then APP_DNS
    else if Protocol(f) == IPPROTO_TCP then
      if src == 443 || dst == 443 then APP_TLS
      else if LooksLikeHttp(f, l.payloadOff) then APP_HTTP else APP_NONE
    else APP_NONE
  }

  /** The capture length: at most 256 bytes, in whole chunks of 16. */
  function CapLen(f: Frame): u32 {
    var n := Min(|f|, MAX_CAPTURE);
    n - n % 16
  }

  /** The scalar fields of the event a packet submits. */
  ghost function HeaderOf(p: Packet): Header
    requires ValidPacket(p) && !LayoutOf(p).Ignored?
  {
    var f, l := p.frame, LayoutOf(p);
    if l.Arp? then
      Header(p.now, 0, 0, 0, 0, 0, 0, 0, 0, 0, ETH_HEADER, ETH_HEADER, 0, |f|, CapLen(f), p.direction, APP_NONE)
    else
      LayoutBounds(p);
      Header(p.now, Le32(f, 26), Le32(f, 30), Num16(f, 16), f[22], f[23], Num16(f, 20) / 0x1000 % 8,
             SrcPort(f, l), DstPort(f, l), if Protocol(f) == IPPROTO_TCP then f[l.l4Off + 13] % 64 else 0,
             l.l4Off, l.payloadOff, (|f| - l.payloadOff) % U16, |f|, CapLen(f), p.direction, TagOf(p))
  }

  /** The strings a packet writes over the cleared scratch buffers. */
  ghost function DnsWritten(p: Packet): Option<seq<byte>>
    requires ValidPacket(p)
  {
    if LayoutOf(p).Ip? && TagOf(p) == APP_DNS then Some(DnsText(p.frame, LayoutOf(p).payloadOff + DNS_HEADER)) else None
  }

  ghost function HttpWritten(p: Packet): Option<seq<byte>>
    requires ValidPacket(p)
  {
    if LayoutOf(p).Ip? && TagOf(p) == APP_HTTP then Info(p.frame, LayoutOf(p).payloadOff) else None
  }

  ghost function SniWritten(p: Packet): Option<seq<byte>>
    requires ValidPacket(p)
  {
    if LayoutOf(p).Ip? && TagOf(p) == APP_TLS then
      LayoutBounds(p);
      if p.direction == DIR_EGRESS || DstPort(p.frame, LayoutOf(p)) == 443
      then Sni(p.frame, LayoutOf(p).payloadOff) else None
    else None
  }

  // ---- the scratch event ----

  /** The string buffers of the per-CPU scratch event, which survive from packet to packet. */
  datatype Strings = Strings(dns: seq<byte>, http: seq<byte>, sni: seq<byte>)

  predicate ValidStrings(s: Strings) {
    |s.dns| == MAX_DNS_NAME && |s.http| == MAX_HTTP_INFO && |s.sni| == MAX_TLS_SNI
  }

  function Cleared(s: Strings): Strings
    requires ValidStrings(s)
  {
    Strings(s.dns[0 := 0], s.http[0 := 0], s.sni[0 := 0])
  }

  ghost function StringsAfter(s: Strings, p: Packet): Strings
    requires ValidStrings(s) && ValidPacket(p)
  {
    if p.linear < ETH_HEADER then s
    else
      var c := Cleared(s);
      DnsTextBound(p.frame, if LayoutOf(p).Ip? then LayoutOf(p).payloadOff + DNS_HEADER else 0);
      SniBound(p.frame, if LayoutOf(p).Ip? then LayoutOf(p).payloadOff else 0);
      Strings(
        if DnsWritten(p).Some? then Overwritten(c.dns, DnsWritten(p).value) else c.dns,
        if HttpWritten(p).Some? then HttpWritten(p).value + [0] else c.http,
        if SniWritten(p).Some? then Overlaid(c.sni, SniWritten(p).value) else c.sni)
  }

  /** The event a packet submits, given the scratch strings and the old bytes of the ring-buffer slot. */
  ghost function Submitted(s: Strings, p: Packet, slot: seq<byte>): Option<Event>
    requires ValidStrings(s) && ValidPacket(p) && |slot| == MAX_CAPTURE
  {
    if LayoutOf(p).Ignored? then None
    else
      var after := StringsAfter(s, p);
      Some(Event(HeaderOf(p), after.dns, after.http, after.sni, p.frame[..CapLen(p.frame)] + slot[CapLen(p.frame)..]))
  }

  /** The scratch header keeps its stale fields when the packet is ignored; all are overwritten otherwise. */
  ghost function ScratchHeaderAfter(h: Header, p: Packet): Header
    requires ValidPacket(p)
  {
    if p.linear < ETH_HEADER then h
    else if LayoutOf(p).Ignored? then h.(tcpFlags := 0, appTag := APP_NONE, direction := p.direction, ktime := p.now)
    else HeaderOf(p).(capLen := Min(|p.frame|, MAX_CAPTURE))
  }

  class PacketProbe {
    var header: Header
    const dnsName: array<byte>
    const httpInfo: array<byte>
    const tlsSni: array<byte>

    ghost predicate Valid()
      reads this
    {
      && dnsName.Length == MAX_DNS_NAME && httpInfo.Length == MAX_HTTP_INFO && tlsSni.Length == MAX_TLS_SNI
      && dnsName != tlsSni
    }

    ghost function Scratch(): (s: Strings)
      requires Valid()
      reads this, dnsName, httpInfo, tlsSni
      ensures ValidStrings(s)
    {
      Strings(dnsName[..], httpInfo[..], tlsSni[..])
    }

    /** TCP flag bits packed one by one. */
    static method PackFlags(flags: byte) returns (raw: byte)
      ensures raw == flags % 64
    {
      var fin, rest1 := Bit(flags);
      var syn, rest2 := Bit(rest1);
      var rst, rest3 := Bit(rest2);
      var psh, rest4 := Bit(rest3);
      var ack, rest5 := Bit(rest4);
      var urg, rest6 := Bit(rest5);
      LowSixBits(flags, fin, syn, rst, psh, ack, urg, rest6);
      var bits: int := if fin == 1 then 0x01 else 0;
      bits := if syn == 1 then bits + 0x02 else bits;
      bits := if rst == 1 then bits + 0x04 else bits;
      bits := if psh == 1 then bits + 0x08 else bits;
      bits := if ack == 1 then bits + 0x10 else bits;
      bits := if urg == 1 then bits + 0x20 else bits;
      raw := bits;
    }

    static method Bit(n: nat) returns (bit: nat, rest: nat)
      ensures bit < 2 && n == bit + 2 * rest
    {
      bit, rest := n % 2, n / 2;
    }

    static lemma LowSixBits(flags: int, b0: int, b1: int, b2: int, b3: int, b4: int, b5: int, high: int)
      requires 0 <= b0 < 2 && 0 <= b1 < 2 && 0 <= b2 < 2 && 0 <= b3 < 2 && 0 <= b4 < 2 && 0 <= b5 < 2
      requires flags == b0 + 2 * (b1 + 2 * (b2 + 2 * (b3 + 2 * (b4 + 2 * (b5 + 2 * high)))))
      ensures flags % 64 == b0 + 2 * b1 + 4 * b2 + 8 * b3 + 16 * b4 + 32 * b5
    {
      var low := b0 + 2 * b1 + 4 * b2 + 8 * b3 + 16 * b4 + 32 * b5;
      assert flags == 64 * high + low && 0 <= low < 64;
    }

    /** Finds the headers and the layer-4 fields; None where the program returns early. */
    static method ParseLayers(p: Packet) returns (found: bool, l4Off: u16, payloadOff: u16, srcPort: u16, dstPort: u16, tcpFlags: byte)
      requires ValidPacket(p) && p.linear >= ETH_HEADER && Num16(p.frame, 12) == ETH_P_IP
      ensures found <==> LayoutOf(p).Ip?
      ensures found ==>
                && LayoutOf(p) == Ip(l4Off, payloadOff)
                && (HasPorts(p.frame) ==> l4Off + 8 <= |p.frame|)
                && srcPort == SrcPort(p.frame, LayoutOf(p)) && dstPort == DstPort(p.frame, LayoutOf(p))
                && tcpFlags == if Protocol(p.frame) == IPPROTO_TCP then p.frame[l4Off + 13] % 64 else 0
    {
      var f := p.frame;
      found, l4Off, payloadOff, srcPort, dstPort, tcpFlags := false, 0, 0, 0, 0, 0;
      if ETH_HEADER + 20 > p.linear {
        return;
      }
      var ipHdrLen := f[14] % 16 * 4;
      if ipHdrLen < 20 || ETH_HEADER + ipHdrLen > p.linear {
        return;
      }
      l4Off := ETH_HEADER + ipHdrLen;
      payloadOff := l4Off;
      if f[23] == IPPROTO_TCP {
        if l4Off + 20 > p.linear {
          return;
        }
        var tcpHdrLen := f[l4Off + 12] / 16 * 4;
        if tcpHdrLen < 20 {
          tcpHdrLen := 20;
        }
        if l4Off + tcpHdrLen > p.linear {
          return;
        }
        srcPort := Be16(f[l4Off], f[l4Off + 1]);
        dstPort := Be16(f[l4Off + 2], f[l4Off + 3]);
        payloadOff := l4Off + tcpHdrLen;
        tcpFlags := PackFlags(f[l4Off + 13]);
      } else if f[23] == IPPROTO_UDP {
        if l4Off + 8 > p.linear {
          return;
        }
        srcPort := Be16(f[l4Off], f[l4Off + 1]);
        dstPort := Be16(f[l4Off + 2], f[l4Off + 3]);
        payloadOff := l4Off + 8;
      }
      found := true;
    }

    /** The application-layer hints of an IPv4 packet. */
    method Hint(p: Packet, payloadOff: u16, srcPort: u16, dstPort: u16) returns (tag: byte)
      requires Valid() && ValidPacket(p) && LayoutOf(p).Ip? && LayoutOf(p).payloadOff == payloadOff
      requires HasPorts(p.frame) ==> LayoutOf(p).l4Off + 8 <= |p.frame|
      requires srcPort == SrcPort(p.frame, LayoutOf(p)) && dstPort == DstPort(p.frame, LayoutOf(p))
      modifies dnsName, httpInfo, tlsSni
      ensures tag == TagOf(p)
      ensures match DnsWritten(p)
              case None => dnsName[..] == old(dnsName[..])
              case Some(text) => |text| < MAX_DNS_NAME && dnsName[..] == Overwritten(old(dnsName[..]), text)
      ensures match HttpWritten(p)
              case None => httpInfo[..] == old(httpInfo[..])
              case Some(line) => httpInfo[..] == line + [0]
      ensures match SniWritten(p)
              case None => tlsSni[..] == old(tlsSni[..])
              case Some(name) => |name| <= SNI_COPY && tlsSni[..] == Overlaid(old(tlsSni[..]), name)
    {
      var f, protocol := p.frame, p.frame[23];
      tag := APP_NONE;
      if protocol == IPPROTO_ICMP {
        tag := APP_ICMP;
      } else if protocol == IPPROTO_UDP {
        if srcPort == 53 || dstPort == 53 {
          tag := APP_DNS;
          ghost var _ := ParseDnsName(f, payloadOff, dnsName);
        }
      } else if protocol == IPPROTO_TCP {
        if srcPort == 443 || dstPort == 443 {
          tag := APP_TLS;
          if p.direction == DIR_EGRESS || dstPort == 443 {
            ghost var _ := ParseTlsSni(f, payloadOff, tlsSni);
          }
        } else {
          // ports 80 and 8080 and every other port take the same steps
          var http := IsHttp(f, payloadOff);
          if http {
            tag := APP_HTTP;
            ParseHttpInfo(f, payloadOff, httpInfo);
          }
        }
      }
    }

    /** The capture loop: the result is never None, so the discard branch cannot be taken. */
    static method Capture(f: Frame, slot: seq<byte>) returns (capLen: u32, packet: Option<seq<byte>>)
      requires |slot| == MAX_CAPTURE
      ensures capLen == CapLen(f)
      ensures packet == Some(f[..capLen] + slot[capLen..])
    {
      capLen := |f|;
      if capLen > MAX_CAPTURE {
        capLen := MAX_CAPTURE;
      }
      capLen := capLen - capLen % 16;
      var bytes := slot;
      var off := 0;
      while off < MAX_CAPTURE
        invariant off % 16 == 0 && off <= capLen && |bytes| == MAX_CAPTURE
        invariant bytes == f[..off] + slot[off..]
      {
        if off >= capLen {
          break;
        }
        var tmp := Load(f, off, 16);
        if tmp.None? {
          return capLen, None;
        }
        ChunkAppended(f, slot, off, tmp.value);
        bytes := bytes[..off] + tmp.value + bytes[off + 16..];
        off := off + 16;
      }
      packet := Some(bytes);
    }

    /** The scalar fields and hints of an IPv4 frame; nothing changes where the program returns early. */
    method FillIpv4(p: Packet) returns (found: bool)
      requires Valid() && ValidPacket(p) && p.linear >= ETH_HEADER && Num16(p.frame, 12) == ETH_P_IP
      requires header.direction == p.direction && header.ktime == p.now
      modifies this`header, dnsName, httpInfo, tlsSni
      ensures found <==> LayoutOf(p).Ip?
      ensures header == if found then HeaderOf(p).(capLen := Min(|p.frame|, MAX_CAPTURE)) else old(header)
      ensures match DnsWritten(p)
              case None => dnsName[..] == old(dnsName[..])
              case Some(text) => |text| < MAX_DNS_NAME && dnsName[..] == Overwritten(old(dnsName[..]), text)
      ensures match HttpWritten(p)
              case None => httpInfo[..] == old(httpInfo[..])
              case Some(line) => httpInfo[..] == line + [0]
      ensures match SniWritten(p)
              case None => tlsSni[..] == old(tlsSni[..])
              case Some(name) => |name| <= SNI_COPY && tlsSni[..] == Overlaid(old(tlsSni[..]), name)
    {
      hide TagOf;
      hide LayoutOf;
      var f := p.frame;
      var l4Off, payloadOff, srcPort, dstPort, tcpFlags;
      found, l4Off, payloadOff, srcPort, dstPort, tcpFlags := ParseLayers(p);
      if !found {
        return;
      }
      LayoutBounds(p);
      header := header.(srcIp := Le32(f, 26), dstIp := Le32(f, 30), ttl := f[22], ipProto := f[23],
      ipTotLen := Be16(f[16], f[17]), ipFlags := Be16(f[20], f[21]) / 0x1000 % 8, srcPort := srcPort, dstPort := dstPort,
      tcpFlags := tcpFlags, l4Off := l4Off, payloadOff := payloadOff, packetLen := |f|,
      capLen := Min(|f|, MAX_CAPTURE),
      payloadLen := if |f| > payloadOff then (|f| - payloadOff) % U16 else 0);
      var tag := Hint(p, payloadOff, srcPort, dstPort);
      header := header.(appTag := tag);
    }

    method ProcessPacket(p: Packet, reserved: bool, slot: seq<byte>) returns (submitted: Option<Event>)
      requires Valid() && ValidPacket(p) && |slot| == MAX_CAPTURE
      modifies this, dnsName, httpInfo, tlsSni
      ensures header == ScratchHeaderAfter(old(header), p)
      ensures Scratch() == StringsAfter(old(Scratch()), p)
      ensures submitted == if reserved then Submitted(old(Scratch()), p, slot) else None
    {
      var f := p.frame;
      if ETH_HEADER > p.linear {
        return None;
      }
      var ethProto := Be16(f[12], f[13]);
      dnsName[0], httpInfo[0], tlsSni[0] := 0, 0, 0;
      header := header.(tcpFlags := 0, appTag := APP_NONE, direction := p.direction, ktime := p.now);
      assert dnsName[..] == old(dnsName[..])[0 := 0] && httpInfo[..] == old(httpInfo[..])[0 := 0];
      assert tlsSni[..] == old(tlsSni[..])[0 := 0];
      if ethProto == ETH_P_ARP {
        header := header.(ipProto := 0, srcIp := 0, dstIp := 0, srcPort := 0, dstPort := 0, ttl := 0, ipFlags := 0,
        ipTotLen := 0, l4Off := ETH_HEADER, payloadOff := ETH_HEADER, payloadLen := 0, packetLen := |f|,
        capLen := Min(|f|, MAX_CAPTURE));
      } else {
        if ethProto != ETH_P_IP {
          return None;
        }
        var found := FillIpv4(p);
        if !found {
          return None;
        }
      }
      if !reserved {
        return None;
      }
      var capLen, packet := Capture(f, slot);
      submitted := Some(Event(header.(capLen := capLen), dnsName[..], httpInfo[..], tlsSni[..], packet.value));
    }
  }

  lemma ChunkAppended(f: Frame, slot: seq<byte>, off: nat, chunk: seq<byte>)
    requires off + 16 <= |f| && off + 16 <= |slot| && chunk == f[off..off + 16]
    ensures var bytes := f[..off] + slot[off..];
            bytes[..off] + chunk + bytes[off + 16..] == f[..off + 16] + slot[off + 16..]
  {
  }

  // ---- what every submitted event satisfies ----

  /** The capture is a whole number of 16-byte chunks of the frame's front, as many as fit in 256 bytes. */
  lemma CaptureExact(s: Strings, p: Packet, slot: seq<byte>)
    requires ValidStrings(s) && ValidPacket(p) && |slot| == MAX_CAPTURE && Submitted(s, p, slot).Some?
    ensures var e := Submitted(s, p, slot).value;
            && WellCaptured(e)
            && e.header.packetLen == |p.frame|
            && e.header.capLen % 16 == 0 && e.header.capLen <= |p.frame|
            && (e.header.capLen < MAX_CAPTURE ==> |p.frame| < e.header.capLen + 16)
            && e.packet[..e.header.capLen] == p.frame[..e.header.capLen]
  {
  }

  /** Offsets of an IPv4 event; the payload length is truncated to 16 bits exactly when it does not fit. */
  lemma OffsetsExact(s: Strings, p: Packet, slot: seq<byte>)
    requires ValidStrings(s) && ValidPacket(p) && |slot| == MAX_CAPTURE && LayoutOf(p).Ip?
    ensures Submitted(s, p, slot).Some?
    ensures var h := Submitted(s, p, slot).value.header;
            && 34 <= h.l4Off <= h.payloadOff <= 134 && h.payloadOff <= p.linear
            && (h.payloadOff + h.payloadLen == h.packetLen <==> |p.frame| - h.payloadOff < U16)
  {
    LayoutBounds(p);
  }

  /** The low byte of src_ip, which userspace hashes by, is the first octet of the dotted address. */
  lemma LowByteIsFirstOctet(p: Packet)
    requires ValidPacket(p) && LayoutOf(p).Ip?
    ensures HeaderOf(p).srcIp % 256 == p.frame[26]
  {
    hide TagOf;
    LowByteFirst(p.frame, 26);
  }

  lemma LowByteFirst(f: Frame, pos: nat)
    requires pos + 4 <= |f|
    ensures Le32(f, pos) % 256 == f[pos]
  {
    var high := f[pos + 1] as int + 0x100 * f[pos + 2] as int + 0x1_0000 * f[pos + 3] as int;
    assert Le32(f, pos) == f[pos] as int + 0x100 * high;
  }

  // ---- packet independence ----

  /** What a reader of the event sees of its C strings, told from the packet alone. */
  ghost function DnsShown(p: Packet): seq<byte>
    requires ValidPacket(p)
  {
    if DnsWritten(p).Some? then CStr(DnsWritten(p).value + [0]) else []
  }

  ghost function HttpShown(p: Packet): seq<byte>
    requires ValidPacket(p)
  {
    if HttpWritten(p).Some? then CStr(HttpWritten(p).value + [0]) else []
  }

  lemma ClearedShowsNothing(buf: seq<byte>)
    requires |buf| > 0
    ensures CStr(buf[0 := 0]) == []
  {
  }

  lemma OverwrittenShows(buf: seq<byte>, text: seq<byte>)
    requires |text| < |buf|
    ensures CStr(Overwritten(buf, text)) == CStr(text + [0])
  {
    CStrStops(text + [0], buf[|text| + 1..]);
  }

  /** An event does not depend on the packets before it: all scalar fields, the captured bytes and the dns_name
      and http_info strings are functions of the packet alone, for any scratch contents and any slot. */
  lemma EventDependsOnPacketOnly(s: Strings, p: Packet, slot: seq<byte>)
    requires ValidStrings(s) && ValidPacket(p) && |slot| == MAX_CAPTURE
    ensures Submitted(s, p, slot).Some? <==> !LayoutOf(p).Ignored?
    ensures Submitted(s, p, slot).Some? ==>
              var e := Submitted(s, p, slot).value;
              && e.header == HeaderOf(p)
              && e.packet[..CapLen(p.frame)] == p.frame[..CapLen(p.frame)]
              && CStr(e.dnsName) == DnsShown(p)
              && CStr(e.httpInfo) == HttpShown(p)
  {
    if Submitted(s, p, slot).Some? {
      ClearedShowsNothing(s.dns);
      ClearedShowsNothing(s.http);
      if DnsWritten(p).Some? {
        DnsTextBound(p.frame, LayoutOf(p).payloadOff + DNS_HEADER);
        OverwrittenShows(Cleared(s).dns, DnsWritten(p).value);
      }
    }
  }

  /** The server name a reader sees. */
  ghost function SniSeen(s: Strings, p: Packet): seq<byte>
    requires ValidStrings(s) && ValidPacket(p)
  {
    CStr(StringsAfter(s, p).sni)
  }

  /** A copied name determines the string: it fills the 15 bytes before the forced NUL, or ends itself. */
  ghost predicate Terminated(w: seq<byte>) {
    |w| >= SNI_COPY - 1 || 0 in w
  }

  lemma TerminatedShows(buf: seq<byte>, w: seq<byte>)
    requires |w| <= SNI_COPY < |buf| && Terminated(w)
    ensures CStr(Overlaid(buf, w)) == CStr(w[..Min(|w|, SNI_COPY - 1)] + [0])
  {
    var m := Min(|w|, SNI_COPY - 1);
    var out := Overlaid(buf, w);
    if |w| >= SNI_COPY - 1 {
      assert out == w[..m] + [0] + out[SNI_COPY..];
      CStrStops(w[..m] + [0], out[SNI_COPY..]);
    } else {
      assert out == w + out[|w|..];
      CStrStops(w, out[|w|..]);
      assert w[..m] == w;
      CStrStops(w, [0]);
    }
  }

  /** A short name without a NUL of its own lets the byte after it show. */
  lemma ShortNameLeaks(buf: seq<byte>, w: seq<byte>)
    requires 0 < |w| < SNI_COPY - 1 && SNI_COPY < |buf| && 0 !in w
    ensures buf[|w|] == 0 ==> CStr(Overlaid(buf, w)) == w
    ensures buf[|w|] != 0 ==> CStr(Overlaid(buf, w)) != w
  {
    var out := Overlaid(buf, w);
    assert out[..|w|] == w && out[|w|] == buf[|w|];
    if buf[|w|] == 0 {
      CStrIs(out, |w|);
    }
  }

  /** The scratch event as the kernel allocates it. */
  function Zeroed(): (s: Strings)
    ensures ValidStrings(s)
    ensures forall i :: 0 <= i < MAX_TLS_SNI ==> s.sni[i] == 0
  {
    Strings(Fill(MAX_DNS_NAME, 0), Fill(MAX_HTTP_INFO, 0), Fill(MAX_TLS_SNI, 0))
  }

  function Fill(n: nat, b: byte): (r: seq<byte>)
    ensures |r| == n && forall i :: 0 <= i < n ==> r[i] == b
  {
    if n == 0 then [] else Fill(n - 1, b) + [b]
  }

  lemma SniSeenExact(s: Strings, p: Packet)
    requires ValidStrings(s) && ValidPacket(p) && p.linear >= ETH_HEADER
    requires SniWritten(p).Some? ==> Terminated(SniWritten(p).value)
    ensures SniSeen(s, p) == if SniWritten(p).Some?
                             then CStr(SniWritten(p).value[..Min(|SniWritten(p).value|, SNI_COPY - 1)] + [0]) else []
  {
    SniBound(p.frame, if LayoutOf(p).Ip? then LayoutOf(p).payloadOff else 0);
    ClearedShowsNothing(s.sni);
    if SniWritten(p).Some? {
      TerminatedShows(Cleared(s).sni, SniWritten(p).value);
    }
  }

  // ---- runs over one CPU's scratch event ----

  ghost function StringsAt(s: Strings, ps: seq<Packet>, i: nat): (r: Strings)
    requires ValidStrings(s) && (forall p <- ps :: ValidPacket(p)) && i <= |ps|
    ensures ValidStrings(r)
  {
    if i == 0 then s else
      var before := StringsAt(s, ps, i - 1);
      StringsKeepSize(before, ps[i - 1]);
      StringsAfter(before, ps[i - 1])
  }

  lemma StringsKeepSize(s: Strings, p: Packet)
    requires ValidStrings(s) && ValidPacket(p)
    ensures ValidStrings(StringsAfter(s, p))
  {
    var after := StringsAfter(s, p);
    assert |after.dns| == MAX_DNS_NAME;
    assert |after.http| == MAX_HTTP_INFO;
    assert |after.sni| == MAX_TLS_SNI;
  }

  /** Two-run property over whole runs: whatever the scratch events and ring-buffer slots held at the start,
      the i-th packet of a run yields the same visible event. */
  lemma RunsAgree(s: Strings, t: Strings, ps: seq<Packet>, i: nat, slot: seq<byte>, slot': seq<byte>)
    requires ValidStrings(s) && ValidStrings(t) && (forall p <- ps :: ValidPacket(p)) && i < |ps|
    requires |slot| == MAX_CAPTURE && |slot'| == MAX_CAPTURE
    ensures var a, b := Submitted(StringsAt(s, ps, i), ps[i], slot), Submitted(StringsAt(t, ps, i), ps[i], slot');
            && (a.Some? <==> b.Some?)
            && (a.Some? ==>
                  && a.value.header == b.value.header
                  && a.value.packet[..CapLen(ps[i].frame)] == b.value.packet[..CapLen(ps[i].frame)]
                  && CStr(a.value.dnsName) == CStr(b.value.dnsName)
                  && CStr(a.value.httpInfo) == CStr(b.value.httpInfo))
  {
    EventDependsOnPacketOnly(StringsAt(s, ps, i), ps[i], slot);
    EventDependsOnPacketOnly(StringsAt(t, ps, i), ps[i], slot');
  }
}
