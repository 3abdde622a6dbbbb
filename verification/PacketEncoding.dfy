/** pksniff, kernel side: the header walk inverts the wire formats of IPv4 (RFC 791 section 3.1), TCP and UDP
    (RFC 9293 section 3.1, RFC 768). */
module PacketEncoding {
  import opened Prelude
  import opened Events
  import opened TlsSni
  import opened PacketParser
  import F = FilterLanguage

  /** An IPv4 header; `frag` is the word with the flags and the fragment offset. */
  datatype Ipv4 = Ipv4(
    tos: byte, totLen: u16, id: u16, frag: u16, ttl: byte, checksum: u16,
    src: seq<byte>, dst: seq<byte>, options: seq<byte>)

  /** `numbers` holds the sequence and acknowledgement numbers, `rest` the fields after flags or ports. */
  datatype Transport =
    | Tcp(srcPort: u16, dstPort: u16, numbers: seq<byte>, reserved: byte, flags: byte, rest: seq<byte>, options: seq<byte>)
    | Udp(srcPort: u16, dstPort: u16, rest: seq<byte>)
    | Other(protocol: byte)

  predicate Options(o: seq<byte>) { |o| <= 40 && |o| % 4 == 0 }

  predicate WellFormedIp(h: Ipv4) {
    |h.src| == 4 && |h.dst| == 4 && Options(h.options)
  }

  predicate WellFormedTransport(t: Transport) {
    if t.Tcp? then |t.numbers| == 8 && t.reserved < 16 && |t.rest| == 6 && Options(t.options)
    else if t.Udp? then |t.rest| == 4
    else t.protocol != IPPROTO_TCP && t.protocol != IPPROTO_UDP
  }

  function ProtocolOf(t: Transport): byte {
    if t.Tcp? then IPPROTO_TCP else if t.Udp? then IPPROTO_UDP else t.protocol
  }

  function Hi(n: u16): byte { n / 256 }

  function Lo(n: u16): byte { n % 256 }

  /** The twelve bytes before the addresses. */
  function IpHead(h: Ipv4, protocol: byte): (b: seq<byte>)
    requires WellFormedIp(h)
    ensures |b| == 12
  {
    [AsByte(0x45 + |h.options| / 4), h.tos, Hi(h.totLen), Lo(h.totLen), Hi(h.id), Lo(h.id), Hi(h.frag), Lo(h.frag),
     h.ttl, protocol, Hi(h.checksum), Lo(h.checksum)]
  }

  function EncodeIpv4(h: Ipv4, protocol: byte): (b: seq<byte>)
    requires WellFormedIp(h)
    ensures |b| == 20 + |h.options|
  {
    IpHead(h, protocol) + (h.src + (h.dst + h.options))
  }

  function EncodeTransport(t: Transport): seq<byte>
    requires WellFormedTransport(t)
  {
    if t.Tcp? then
      [Hi(t.srcPort), Lo(t.srcPort), Hi(t.dstPort), Lo(t.dstPort)] + t.numbers
      + [AsByte((5 + |t.options| / 4) * 16 + t.reserved), t.flags] + t.rest + t.options
    else if t.Udp? then [Hi(t.srcPort), Lo(t.srcPort), Hi(t.dstPort), Lo(t.dstPort)] + t.rest
    else []
  }

  /** An Ethernet frame that carries IPv4; `macs` is the two addresses. */
  function EncodeFrame(macs: seq<byte>, h: Ipv4, t: Transport, payload: seq<byte>): seq<byte>
    requires WellFormedIp(h) && WellFormedTransport(t)
  {
    (macs + [8, 0]) + (EncodeIpv4(h, ProtocolOf(t)) + (EncodeTransport(t) + payload))
  }

  /** `p` is such a frame and its headers lie in the linear data. */
  ghost predicate Carries(p: Packet, macs: seq<byte>, h: Ipv4, t: Transport, payload: seq<byte>) {
    && |macs| == 12 && WellFormedIp(h) && WellFormedTransport(t)
    && p.frame == EncodeFrame(macs, h, t, payload)
    && |p.frame| - |payload| <= p.linear <= |p.frame|
  }

  lemma WordBytes(n: u16)
    ensures Be16(Hi(n), Lo(n)) == n
  {
  }

  /** Where the parts of the frame lie. */
  lemma FrameParts(p: Packet, macs: seq<byte>, h: Ipv4, t: Transport, payload: seq<byte>)
    requires Carries(p, macs, h, t, payload)
    ensures At(p.frame, 12, [8, 0]) && At(p.frame, 14, EncodeIpv4(h, ProtocolOf(t)))
    ensures At(p.frame, 34 + |h.options|, EncodeTransport(t) + payload)
  {
    var f, ip, rest := p.frame, EncodeIpv4(h, ProtocolOf(t)), EncodeTransport(t) + payload;
    assert At(f, 0, (macs + [8, 0]) + (ip + rest));
    AtSplit(f, 0, macs + [8, 0], ip + rest);
    AtSplit(f, 0, macs, [8, 0]);
    AtSplit(f, 14, ip, rest);
  }

  lemma WordsInWords(o: nat)
    requires o <= 40 && o % 4 == 0
    ensures (0x45 + o / 4) % 16 * 4 == 20 + o && 5 + o / 4 < 16
  {
  }

  lemma IpHeadBytes(f: Frame, h: Ipv4, protocol: byte)
    requires WellFormedIp(h) && At(f, 14, IpHead(h, protocol))
    ensures |f| >= 26 && f[14] == AsByte(0x45 + |h.options| / 4)
    ensures f[16] == Hi(h.totLen) && f[17] == Lo(h.totLen) && f[20] == Hi(h.frag) && f[21] == Lo(h.frag)
    ensures f[22] == h.ttl && f[23] == protocol
  {
    var ip := IpHead(h, protocol);
    assert f[14 + 0] == ip[0] && f[14 + 2] == ip[2] && f[14 + 3] == ip[3] && f[14 + 6] == ip[6] && f[14 + 7] == ip[7];
    assert f[14 + 8] == ip[8] && f[14 + 9] == ip[9];
  }

  lemma IpHeadFields(f: Frame, h: Ipv4, protocol: byte)
    requires WellFormedIp(h) && At(f, 14, IpHead(h, protocol))
    ensures f[14] % 16 * 4 == 20 + |h.options|
    ensures Num16(f, 16) == h.totLen && Num16(f, 20) == h.frag && f[22] == h.ttl && f[23] == protocol
  {
    IpHeadBytes(f, h, protocol);
    WordsInWords(|h.options|);
    WordBytes(h.totLen);
    WordBytes(h.frag);
  }

  lemma IpFields(f: Frame, h: Ipv4, protocol: byte)
    requires WellFormedIp(h) && At(f, 14, EncodeIpv4(h, protocol))
    ensures |f| >= 34 && f[14] % 16 * 4 == 20 + |h.options|
    ensures Num16(f, 16) == h.totLen && Num16(f, 20) == h.frag && f[22] == h.ttl && f[23] == protocol
    ensures f[26..30] == h.src && f[30..34] == h.dst
  {
    AtSplit(f, 14, IpHead(h, protocol), h.src + (h.dst + h.options));
    AtSplit(f, 26, h.src, h.dst + h.options);
    AtSplit(f, 30, h.dst, h.options);
    IpHeadFields(f, h, protocol);
    AtPrefix(f, 26, h.src, 4);
    AtPrefix(f, 30, h.dst, 4);
  }

  lemma TcpFields(f: Frame, pos: nat, t: Transport, payload: seq<byte>)
    requires t.Tcp? && WellFormedTransport(t) && At(f, pos, EncodeTransport(t) + payload)
    ensures |EncodeTransport(t)| == 20 + |t.options| && pos + 20 <= |f|
    ensures Num16(f, pos) == t.srcPort && Num16(f, pos + 2) == t.dstPort
    ensures f[pos + 12] / 16 * 4 == 20 + |t.options| && f[pos + 13] == t.flags
  {
    var b := EncodeTransport(t);
    AtSplit(f, pos, b, payload);
    assert f[pos + 0] == b[0] && f[pos + 1] == b[1] && f[pos + 2] == b[2] && f[pos + 3] == b[3];
    WordBytes(t.srcPort);
    WordBytes(t.dstPort);
    assert f[pos + 12] == b[12] && f[pos + 13] == b[13];
  }

  lemma UdpFields(f: Frame, pos: nat, t: Transport, payload: seq<byte>)
    requires t.Udp? && WellFormedTransport(t) && At(f, pos, EncodeTransport(t) + payload)
    ensures |EncodeTransport(t)| == 8 && pos + 8 <= |f|
    ensures Num16(f, pos) == t.srcPort && Num16(f, pos + 2) == t.dstPort
  {
    var b := EncodeTransport(t);
    AtSplit(f, pos, b, payload);
    assert f[pos + 0] == b[0] && f[pos + 1] == b[1] && f[pos + 2] == b[2] && f[pos + 3] == b[3];
  }

  /** The headers are found where they are, and the port and flag fields are read from there. */
  lemma LayoutInvertsEncoding(p: Packet, macs: seq<byte>, h: Ipv4, t: Transport, payload: seq<byte>)
    requires Carries(p, macs, h, t, payload)
    ensures ValidPacket(p) && LayoutOf(p) == Ip(34 + |h.options|, 34 + |h.options| + |EncodeTransport(t)|)
    ensures !t.Other? ==> 34 + |h.options| + 8 <= |p.frame|
    ensures !t.Other? ==> Num16(p.frame, 34 + |h.options|) == t.srcPort && Num16(p.frame, 36 + |h.options|) == t.dstPort
    ensures t.Tcp? ==> 34 + |h.options| + 20 <= |p.frame| && p.frame[34 + |h.options| + 13] == t.flags
  {
    FrameParts(p, macs, h, t, payload);
    IpFields(p.frame, h, ProtocolOf(t));
    assert p.frame[12 + 0] == [8, 0][0] && p.frame[12 + 1] == [8, 0][1];
    assert |p.frame| == 34 + |h.options| + |EncodeTransport(t)| + |payload|;
    if t.Tcp? {
      TcpFields(p.frame, 34 + |h.options|, t, payload);
    } else if t.Udp? {
      UdpFields(p.frame, 34 + |h.options|, t, payload);
    }
  }

  /** Every field of the event is the field of the packet: for every Ethernet frame with a well-formed IPv4 header,
      any options, and a TCP, UDP or other payload. */
  lemma HeaderInvertsEncoding(p: Packet, macs: seq<byte>, h: Ipv4, t: Transport, payload: seq<byte>)
    requires Carries(p, macs, h, t, payload)
    ensures ValidPacket(p) && LayoutOf(p).Ip?
    ensures var e := HeaderOf(p);
            && e.ipTotLen == h.totLen && e.ttl == h.ttl && e.ipProto == ProtocolOf(t)
            && e.ipFlags == h.frag / 0x1000 % 8
            && (if t.Other? then e.srcPort == e.dstPort == 0 else e.srcPort == t.srcPort && e.dstPort == t.dstPort)
            && e.tcpFlags == (if t.Tcp? then t.flags % 64 else 0)
            && e.l4Off == 34 + |h.options| && e.payloadOff == e.l4Off + |EncodeTransport(t)|
            && e.payloadLen == |payload| % U16 && e.packetLen == |p.frame|
  {
    LayoutInvertsEncoding(p, macs, h, t, payload);
    FrameParts(p, macs, h, t, payload);
    IpFields(p.frame, h, ProtocolOf(t));
    LayoutBounds(p);
    assert |p.frame| - LayoutOf(p).payloadOff == |payload|;
  }

  /** The addresses user space shows and filters by are those of the packet. */
  lemma AddressesShown(p: Packet, macs: seq<byte>, h: Ipv4, t: Transport, payload: seq<byte>)
    requires Carries(p, macs, h, t, payload)
    ensures ValidPacket(p) && LayoutOf(p).Ip?
    ensures F.AddressText(HeaderOf(p).srcIp) == Dotted(h.src) && F.AddressText(HeaderOf(p).dstIp) == Dotted(h.dst)
  {
    LayoutInvertsEncoding(p, macs, h, t, payload);
    FrameParts(p, macs, h, t, payload);
    IpFields(p.frame, h, ProtocolOf(t));
    AddressShown(p.frame, 26);
    AddressShown(p.frame, 30);
  }

  /** An address in dotted form, first octet first. */
  function Dotted(a: seq<byte>): string
    requires |a| == 4
  {
    F.Decimal(a[0]) + "." + F.Decimal(a[1]) + "." + F.Decimal(a[2]) + "." + F.Decimal(a[3])
  }

  lemma Octets(a: nat, b: nat, c: nat, d: nat)
    requires a < 256 && b < 256 && c < 256 && d < 256
    ensures var n := a + 0x100 * b + 0x1_0000 * c + 0x100_0000 * d;
            n % 256 == a && n / 0x100 % 256 == b && n / 0x1_0000 % 256 == c && n / 0x100_0000 == d
  {
    var n := a + 0x100 * b + 0x1_0000 * c + 0x100_0000 * d;
    assert n / 0x100 == b + 0x100 * (c + 0x100 * d);
    assert n / 0x1_0000 == c + 0x100 * d;
  }

  lemma AddressShown(f: Frame, pos: nat)
    requires pos + 4 <= |f|
    ensures F.AddressText(PacketParser.Le32(f, pos)) == Dotted(f[pos..pos + 4])
  {
    Octets(f[pos], f[pos + 1], f[pos + 2], f[pos + 3]);
  }

  /** Where the payload lies, up to the end of the frame. */
  lemma PayloadPart(p: Packet, macs: seq<byte>, h: Ipv4, t: Transport, payload: seq<byte>)
    requires Carries(p, macs, h, t, payload)
    ensures At(p.frame, 34 + |h.options| + |EncodeTransport(t)|, payload)
  {
    hide EncodeFrame, EncodeIpv4, EncodeTransport;
    FrameParts(p, macs, h, t, payload);
    AtSplit(p.frame, 34 + |h.options|, EncodeTransport(t), payload);
  }

  lemma PayloadAt(p: Packet, macs: seq<byte>, h: Ipv4, t: Transport, payload: seq<byte>)
    requires Carries(p, macs, h, t, payload)
    ensures ValidPacket(p) && LayoutOf(p).Ip? && At(p.frame, LayoutOf(p).payloadOff, payload)
    ensures |p.frame| == LayoutOf(p).payloadOff + |payload|
  {
    LayoutInvertsEncoding(p, macs, h, t, payload);
    PayloadPart(p, macs, h, t, payload);
  }

  // ---- the rest of the event, and the frames that give none ----

  /** Time, direction and capture length of every event; the capture length is that of the frame, at most 256 and
      rounded down to a multiple of 16. */
  lemma CommonFields(p: Packet)
    requires ValidPacket(p) && !LayoutOf(p).Ignored?
    ensures var e := HeaderOf(p);
            && e.ktime == p.now && e.direction == p.direction && e.packetLen == |p.frame|
            && e.capLen % 16 == 0 && e.capLen <= 256 && e.capLen <= |p.frame|
            && (e.capLen < 256 ==> |p.frame| < e.capLen + 16)
  {
    hide TagOf;
  }

  /** An ARP frame gives an event without addresses, ports or hints. */
  lemma ArpEvent(p: Packet)
    requires ValidPacket(p) && p.linear >= 14 && p.frame[12] == 8 && p.frame[13] == 6
    ensures LayoutOf(p).Arp?
    ensures var e := HeaderOf(p);
            && e.srcIp == 0 && e.dstIp == 0 && e.ipTotLen == 0 && e.ttl == 0 && e.ipProto == 0 && e.ipFlags == 0
            && e.srcPort == 0 && e.dstPort == 0 && e.tcpFlags == 0
            && e.l4Off == 14 && e.payloadOff == 14 && e.payloadLen == 0 && e.appTag == 0
    ensures DnsWritten(p).None? && HttpWritten(p).None? && SniWritten(p).None?
  {
    hide TagOf;
  }

  /** A frame that is neither IPv4 (0x0800) nor ARP (0x0806) gives no event. */
  lemma OtherFramesIgnored(p: Packet)
    requires ValidPacket(p)
    requires p.linear < 14 || !(p.frame[12] == 8 && (p.frame[13] == 0 || p.frame[13] == 6))
    ensures LayoutOf(p).Ignored?
  {
  }

  /** An IPv4 header shorter than five words gives no event. */
  lemma ShortIpIgnored(p: Packet)
    requires ValidPacket(p) && p.linear >= 34 && p.frame[12] == 8 && p.frame[13] == 0 && p.frame[14] % 16 < 5
    ensures LayoutOf(p).Ignored?
  {
  }

  /** A TCP header that claims to be shorter than five words is taken to have five. */
  lemma ShortTcpTaken(p: Packet, h: Ipv4)
    requires ValidPacket(p) && WellFormedIp(h) && At(p.frame, 12, [8, 0]) && At(p.frame, 14, EncodeIpv4(h, IPPROTO_TCP))
    requires 54 + |h.options| <= p.linear && p.frame[46 + |h.options|] / 16 < 5
    ensures LayoutOf(p) == Ip(34 + |h.options|, 54 + |h.options|)
  {
    assert p.frame[12 + 0] == [8, 0][0] && p.frame[12 + 1] == [8, 0][1];
    IpFields(p.frame, h, IPPROTO_TCP);
  }

  /** A frame whose headers do not all lie in the linear data gives no event. */
  lemma CutHeadersIgnored(p: Packet, macs: seq<byte>, h: Ipv4, t: Transport, payload: seq<byte>)
    requires |macs| == 12 && WellFormedIp(h) && WellFormedTransport(t) && p.frame == EncodeFrame(macs, h, t, payload)
    requires p.linear < |p.frame| - |payload|
    ensures ValidPacket(p) && LayoutOf(p).Ignored?
  {
    var full := p.(linear := |p.frame|);
    FrameParts(full, macs, h, t, payload);
    IpFields(p.frame, h, ProtocolOf(t));
    CutLayout(p, h, t, payload);
  }

  lemma CutLayout(p: Packet, h: Ipv4, t: Transport, payload: seq<byte>)
    requires WellFormedIp(h) && WellFormedTransport(t) && At(p.frame, 12, [8, 0])
    requires |p.frame| >= 34 && p.frame[14] % 16 * 4 == 20 + |h.options| && p.frame[23] == ProtocolOf(t)
    requires At(p.frame, 34 + |h.options|, EncodeTransport(t) + payload)
    requires p.linear < 34 + |h.options| + |EncodeTransport(t)|
    ensures ValidPacket(p) && LayoutOf(p).Ignored?
  {
    assert p.frame[12 + 0] == [8, 0][0] && p.frame[12 + 1] == [8, 0][1];
    if t.Tcp? {
      TcpFields(p.frame, 34 + |h.options|, t, payload);
    } else if t.Udp? {
      UdpFields(p.frame, 34 + |h.options|, t, payload);
    }
  }

  // ---- the flags field ----

  /** Don't Fragment and More Fragments. */
  function Df(frag: u16): nat { frag / 0x4000 % 2 }

  function Mf(frag: u16): nat { frag / 0x2000 % 2 }

  lemma FlagBits(frag: u16)
    ensures frag / 0x1000 % 8 == 4 * Df(frag) + 2 * Mf(frag) + frag / 0x1000 % 2
    ensures frag % 0x2000 < 0x1000 <==> frag / 0x1000 % 2 == 0
  {
    var q := frag / 0x1000;
    assert frag / 0x2000 == q / 2 && frag / 0x4000 == q / 4;
    assert frag % 0x2000 == frag % 0x1000 + 0x1000 * (q % 2);
  }

  lemma FlagsRead(p: Packet, macs: seq<byte>, h: Ipv4, t: Transport, payload: seq<byte>)
    requires Carries(p, macs, h, t, payload)
    ensures ValidPacket(p) && LayoutOf(p).Ip? && HeaderOf(p).ipFlags == 4 * Df(h.frag) + 2 * Mf(h.frag) + h.frag / 0x1000 % 2
  {
    HeaderInvertsEncoding(p, macs, h, t, payload);
    FlagBits(h.frag);
  }

  /** ip_flags is the two flags exactly when the fragment offset is below 4096 units. */
  lemma FlagsExactlyWhen(p: Packet, macs: seq<byte>, h: Ipv4, t: Transport, payload: seq<byte>)
    requires Carries(p, macs, h, t, payload)
    ensures ValidPacket(p) && LayoutOf(p).Ip?
    ensures HeaderOf(p).ipFlags == 4 * Df(h.frag) + 2 * Mf(h.frag) <==> h.frag % 0x2000 < 0x1000
  {
    FlagsRead(p, macs, h, t, payload);
    FlagBits(h.frag);
  }

  // ---- packets to point at ----

  function Zeros(n: nat): (r: seq<byte>)
    ensures |r| == n && forall i :: 0 <= i < n ==> r[i] == 0
  {
    seq(n, _ => AsByte(0))
  }

  lemma SomeHeaders(frag: u16, dstPort: u16) returns (h: Ipv4, t: Transport)
    ensures WellFormedIp(h) && h.frag == frag && |h.options| == 0
    ensures t.Tcp? && WellFormedTransport(t) && t.srcPort != 443 && t.dstPort == dstPort && |EncodeTransport(t)| == 20
  {
    h := Ipv4(0, 0, 0, frag, 64, 0, [10, 0, 0, 1], [10, 0, 0, 2], []);
    t := Tcp(50000, dstPort, Zeros(8), 0, 0x18, Zeros(6), []);
  }

  /** There is an outgoing TCP frame with any payload, port and fragment word, all of it in the linear data. */
  lemma SomePacket(frag: u16, dstPort: u16, payload: seq<byte>) returns (p: Packet, macs: seq<byte>, h: Ipv4, t: Transport)
    requires |payload| < 0x1_0000
    ensures Carries(p, macs, h, t, payload) && p.direction == DIR_EGRESS
    ensures h.frag == frag && t.Tcp? && t.srcPort != 443 && t.dstPort == dstPort
  {
    h, t := SomeHeaders(frag, dstPort);
    macs := Zeros(12);
    var frame := EncodeFrame(macs, h, t, payload);
    p := Packet(frame, |frame|, DIR_EGRESS, 0);
  }

  /** From unit 4096 on the offset's top bit is reported as a third flag; a frame with any fragment word exists. */
  lemma FlagsMisread(p: Packet, macs: seq<byte>, h: Ipv4, t: Transport, payload: seq<byte>)
    requires Carries(p, macs, h, t, payload) && h.frag % 0x2000 >= 0x1000
    ensures ValidPacket(p) && LayoutOf(p).Ip? && HeaderOf(p).ipFlags == 4 * Df(h.frag) + 2 * Mf(h.frag) + 1
  {
    FlagsRead(p, macs, h, t, payload);
    FlagBits(h.frag);
  }
}
