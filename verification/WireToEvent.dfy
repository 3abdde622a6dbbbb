/** pksniff, kernel side: from the bytes on the wire to the strings of the event, over DNS, TLS and HTTP packets and
    over whole runs. */
module WireToEvent {
  import opened Prelude
  import opened Events
  import opened DnsName
  import opened TlsSni
  import opened HttpHint
  import opened PacketParser
  import opened PacketEncoding

  /** The ports are read where they are. */
  lemma PortsFound(p: Packet, macs: seq<byte>, h: Ipv4, t: Transport, payload: seq<byte>)
    requires Carries(p, macs, h, t, payload) && !t.Other?
    ensures ValidPacket(p) && LayoutOf(p).Ip? && Protocol(p.frame) == ProtocolOf(t)
    ensures LayoutOf(p).l4Off + 8 <= |p.frame|
    ensures Num16(p.frame, LayoutOf(p).l4Off) == t.srcPort && Num16(p.frame, LayoutOf(p).l4Off + 2) == t.dstPort
  {
    LayoutInvertsEncoding(p, macs, h, t, payload);
    FrameParts(p, macs, h, t, payload);
    IpFields(p.frame, h, ProtocolOf(t));
  }

  ghost predicate HasPorts(p: Packet, protocol: byte, src: u16, dst: u16) {
    && ValidPacket(p) && LayoutOf(p).Ip? && Protocol(p.frame) == protocol && LayoutOf(p).l4Off + 8 <= |p.frame|
    && Num16(p.frame, LayoutOf(p).l4Off) == src && Num16(p.frame, LayoutOf(p).l4Off + 2) == dst
  }

  lemma OtherFound(p: Packet, macs: seq<byte>, h: Ipv4, t: Transport, payload: seq<byte>)
    requires Carries(p, macs, h, t, payload)
    ensures ValidPacket(p) && LayoutOf(p).Ip? && Protocol(p.frame) == ProtocolOf(t)
  {
    LayoutInvertsEncoding(p, macs, h, t, payload);
    FrameParts(p, macs, h, t, payload);
    IpFields(p.frame, h, ProtocolOf(t));
  }

  // ---- DNS ----

  lemma DnsByPorts(p: Packet, src: u16, dst: u16)
    requires HasPorts(p, IPPROTO_UDP, src, dst) && (src == 53 || dst == 53)
    ensures TagOf(p) == APP_DNS
    ensures DnsShown(p) == CStr(DnsText(p.frame, LayoutOf(p).payloadOff + DNS_HEADER) + [0])
  {
  }

  lemma NameAfterHeader(frame: Frame, off: nat, dnsHeader: seq<byte>, labels: seq<seq<byte>>, rest: seq<byte>)
    requires AllLabels(labels) && |dnsHeader| == DNS_HEADER
    requires At(frame, off, dnsHeader + (EncodeName(labels) + rest))
    ensures DnsText(frame, off + DNS_HEADER) == DotJoin(Kept(labels, MAX_LABELS))
  {
    AtSplit(frame, off, dnsHeader, EncodeName(labels) + rest);
    AtSplit(frame, off + DNS_HEADER, EncodeName(labels), rest);
    WellFormedName(frame, off + DNS_HEADER, labels);
  }

  /** Every UDP packet to or from port 53 that carries a DNS header and an uncompressed name is tagged DNS and shows the
      dot-join of the first four bytes of the name's first eight labels. */
  lemma DnsPacketShown(p: Packet, macs: seq<byte>, h: Ipv4, t: Transport,
                       dnsHeader: seq<byte>, labels: seq<seq<byte>>, rest: seq<byte>)
    requires AllLabels(labels) && |dnsHeader| == DNS_HEADER
    requires Carries(p, macs, h, t, dnsHeader + (EncodeName(labels) + rest))
    requires t.Udp? && (t.srcPort == 53 || t.dstPort == 53)
    ensures ValidPacket(p) && LayoutOf(p).Ip? && TagOf(p) == APP_DNS
    ensures DnsShown(p) == CStr(DotJoin(Kept(labels, MAX_LABELS)) + [0])
  {
    var payload := dnsHeader + (EncodeName(labels) + rest);
    PortsFound(p, macs, h, t, payload);
    DnsByPorts(p, t.srcPort, t.dstPort);
    PayloadAt(p, macs, h, t, payload);
    NameAfterHeader(p.frame, LayoutOf(p).payloadOff, dnsHeader, labels, rest);
  }

  // ---- HTTP ----

  lemma HttpByPorts(p: Packet, src: u16, dst: u16)
    requires HasPorts(p, IPPROTO_TCP, src, dst) && src != 443 && dst != 443
    ensures var off := LayoutOf(p).payloadOff;
            && TagOf(p) == (if LooksLikeHttp(p.frame, off) then APP_HTTP else APP_NONE)
            && HttpWritten(p) == (if LooksLikeHttp(p.frame, off) then Info(p.frame, off) else None)
            && DnsWritten(p).None? && SniWritten(p).None?
  {
  }

  predicate BeginsWith(payload: seq<byte>, text: string) {
    |text| <= |payload| && forall i :: 0 <= i < |text| ==> payload[i] as int == text[i] as int
  }

  /** The payload has the eight bytes that are looked at and begins with a request method or a response. */
  ghost predicate Request(payload: seq<byte>) {
    && |payload| >= 8
    && (|| BeginsWith(payload, "GET ") || BeginsWith(payload, "POST") || BeginsWith(payload, "HEAD")
        || BeginsWith(payload, "PUT ") || BeginsWith(payload, "DEL") || BeginsWith(payload, "HTTP"))
  }

  lemma VerbIs(i: nat, text: string, head: seq<byte>)
    requires i < |VERBS| && |VERBS[i]| == |text| <= |head|
    requires forall j :: 0 <= j < |text| ==> VERBS[i][j] as int == text[j] as int
    ensures VERBS[i] <= head <==> BeginsWith(head, text)
  {
    PrefixBytes(VERBS[i], head);
  }

  lemma VerbsExactly(head: seq<byte>)
    requires |head| == 8
    ensures (exists i :: 0 <= i < |VERBS| && VERBS[i] <= head) <==> Request(head)
  {
    VerbIs(0, "GET ", head);
    VerbIs(1, "POST", head);
    VerbIs(2, "HEAD", head);
    VerbIs(3, "PUT ", head);
    VerbIs(4, "DEL", head);
    VerbIs(5, "HTTP", head);
  }

  lemma RequestSeen(frame: Frame, off: nat, payload: seq<byte>)
    requires At(frame, off, payload) && |frame| == off + |payload|
    ensures LooksLikeHttp(frame, off) <==> Request(payload)
  {
    if |payload| >= 8 {
      AtPrefix(frame, off, payload, 8);
      VerbsExactly(payload[..8]);
    }
  }

  /** Every TCP packet off port 443: it is tagged HTTP exactly when its payload begins with a request and has eight bytes,
      and its first 47 bytes, with blanks for line feeds and carriage returns, are written exactly when there are 47. */
  lemma HttpPacketShown(p: Packet, macs: seq<byte>, h: Ipv4, t: Transport, payload: seq<byte>)
    requires Carries(p, macs, h, t, payload) && t.Tcp? && t.srcPort != 443 && t.dstPort != 443
    ensures ValidPacket(p) && LayoutOf(p).Ip? && TagOf(p) == (if Request(payload) then APP_HTTP else APP_NONE)
    ensures HttpWritten(p).Some? <==> Request(payload) && |payload| >= 47
    ensures HttpWritten(p).Some? ==> OnOneLine(HttpWritten(p).value, payload)
    ensures HttpWritten(p).None? ==> HttpShown(p) == []
    ensures DnsWritten(p).None? && SniWritten(p).None?
  {
    PortsFound(p, macs, h, t, payload);
    HttpByPorts(p, t.srcPort, t.dstPort);
    PayloadAt(p, macs, h, t, payload);
    RequestSeen(p.frame, LayoutOf(p).payloadOff, payload);
    if HttpWritten(p).Some? { SnippetOnOneLine(p.frame, LayoutOf(p).payloadOff, payload); }
  }

  /** The first 47 bytes of the payload, with blanks for the bytes 10 and 13. */
  ghost predicate OnOneLine(line: seq<byte>, payload: seq<byte>) {
    && |line| == 47 <= |payload|
    && (forall i :: 0 <= i < 47 && (payload[i] == 10 || payload[i] == 13) ==> line[i] == 32)
    && (forall i :: 0 <= i < 47 && payload[i] != 10 && payload[i] != 13 ==> line[i] == payload[i])
  }

  lemma SnippetOnOneLine(frame: Frame, off: nat, payload: seq<byte>)
    requires At(frame, off, payload) && |frame| == off + |payload| && |payload| >= 47
    ensures OnOneLine(Snippet(frame, off), payload)
  {
  }

  /** "GET / HTTP/1.0", a complete short request. */
  const SHORT_REQUEST: seq<byte> := [71, 69, 84, 32, 47, 32, 72, 84, 84, 80, 47, 49, 46, 48, 13, 10, 13, 10]

  /** Any packet with it off port 443 is tagged HTTP and shows nothing of it. */
  lemma ShortRequestHidden(p: Packet, macs: seq<byte>, h: Ipv4, t: Transport)
    requires Carries(p, macs, h, t, SHORT_REQUEST) && t.Tcp? && t.srcPort != 443 && t.dstPort != 443
    ensures ValidPacket(p) && LayoutOf(p).Ip? && TagOf(p) == APP_HTTP && HttpShown(p) == []
  {
    assert BeginsWith(SHORT_REQUEST, "GET ");
    HttpPacketShown(p, macs, h, t, SHORT_REQUEST);
  }

  // ---- TLS ----

  lemma TlsByPorts(p: Packet, src: u16, dst: u16)
    requires HasPorts(p, IPPROTO_TCP, src, dst) && (src == 443 || dst == 443)
    ensures TagOf(p) == APP_TLS && DnsWritten(p).None? && HttpWritten(p).None?
    ensures SniWritten(p) == if p.direction == 1 || dst == 443 then Sni(p.frame, LayoutOf(p).payloadOff) else None
  {
  }

  /** A TCP packet in which a server name is looked for: it goes to port 443, or leaves from there. */
  ghost predicate LookedAt(p: Packet, t: Transport) {
    t.Tcp? && (t.dstPort == 443 || (t.srcPort == 443 && p.direction == 1))
  }

  /** `p` is such a packet with a well-formed hello whose server_name, among the first 16 extensions, names `name`. */
  ghost predicate CarriesHello(p: Packet, macs: seq<byte>, h: Ipv4, t: Transport,
                               hello: Hello, k: nat, name: seq<byte>, rest: seq<byte>) {
    && WellFormed(hello) && Carries(p, macs, h, t, EncodeHello(hello) + rest)
    && LookedAt(p, t)
    && k < |hello.extensions| && k < MAX_EXTENSIONS && (forall i :: 0 <= i < k ==> hello.extensions[i].typ != 0)
    && 0 < |name| && |name| + 5 < U16 && hello.extensions[k] == ServerName(name)
  }

  /** Every such packet is tagged TLS and has the first 16 bytes of the host name written. */
  lemma HelloPacketShown(p: Packet, macs: seq<byte>, h: Ipv4, t: Transport,
                         hello: Hello, k: nat, name: seq<byte>, rest: seq<byte>)
    requires CarriesHello(p, macs, h, t, hello, k, name, rest)
    ensures ValidPacket(p) && LayoutOf(p).Ip? && TagOf(p) == APP_TLS
    ensures SniWritten(p) == Some(name[..Min(|name|, SNI_COPY)])
  {
    PortsFound(p, macs, h, t, EncodeHello(hello) + rest);
    TlsByPorts(p, t.srcPort, t.dstPort);
    PayloadAt(p, macs, h, t, EncodeHello(hello) + rest);
    AtSplit(p.frame, LayoutOf(p).payloadOff, EncodeHello(hello), rest);
    SniInvertsEncoding(p.frame, LayoutOf(p).payloadOff, hello, k, name);
  }

  lemma HelloBounded(hello: Hello)
    requires WellFormed(hello)
    ensures |EncodeHello(hello)| < 0x10_0000
  {
  }

  /** The frame with the missing bytes of its payload added. */
  lemma Completed(frame: Frame, off: nat, part: seq<byte>, all: seq<byte>) returns (whole: Frame)
    requires part <= all && |all| < 0x10_0000 && At(frame, off, part) && |frame| == off + |part| && off <= 0xffff
    ensures FrontOf(frame, whole) && At(whole, off, all)
  {
    whole := frame + all[|part|..];
    forall i | 0 <= i < |all| ensures whole[off + i] == all[i] {
      if i >= |part| { assert whole[off + i] == all[|part|..][i - |part|]; }
    }
  }

  /** Every packet that is looked at and whose payload is a well-formed hello cut off after any number of bytes, as a long
      hello is by the end of its first segment: if a server_name is among the first 16 extensions, the first 16
      bytes of its first name are written exactly when the packet still holds the first min(n, 63) bytes of that name,
      and nothing is written otherwise. */
  lemma CutHelloPacketShown(p: Packet, macs: seq<byte>, h: Ipv4, t: Transport, payload: seq<byte>,
                            hello: Hello, k: nat, front: seq<byte>, name: seq<byte>, more: seq<byte>)
    requires Carries(p, macs, h, t, payload) && LookedAt(p, t)
    requires WellFormed(hello) && payload <= EncodeHello(hello)
    requires k < |hello.extensions| && k < 16 && forall i :: 0 <= i < k ==> hello.extensions[i].typ != 0
    requires |front| == 3 && |name| < U16 && hello.extensions[k] == HostExtension(front, name, more)
    ensures ValidPacket(p) && LayoutOf(p).Ip? && TagOf(p) == APP_TLS
    ensures SniWritten(p) ==
            if |name| > 0 && ListOffset(hello) + ExtensionOffset(hello.extensions, k) + 9 + Min(|name|, 63) <= |payload|
            then Some(name[..Min(|name|, 16)]) else None
  {
    PortsFound(p, macs, h, t, payload);
    TlsByPorts(p, t.srcPort, t.dstPort);
    PayloadAt(p, macs, h, t, payload);
    LayoutBounds(p);
    CutHelloSeen(p.frame, LayoutOf(p).payloadOff, payload, hello, k, front, name, more);
  }

  lemma CutHelloSeen(frame: Frame, off: nat, payload: seq<byte>, hello: Hello, k: nat,
                     front: seq<byte>, name: seq<byte>, more: seq<byte>)
    requires At(frame, off, payload) && |frame| == off + |payload| && off <= 134
    requires WellFormed(hello) && payload <= EncodeHello(hello)
    requires k < |hello.extensions| && k < 16 && forall i :: 0 <= i < k ==> hello.extensions[i].typ != 0
    requires |front| == 3 && |name| < U16 && hello.extensions[k] == HostExtension(front, name, more)
    ensures Sni(frame, off) ==
            if |name| > 0 && ListOffset(hello) + ExtensionOffset(hello.extensions, k) + 9 + Min(|name|, 63) <= |payload|
            then Some(name[..Min(|name|, 16)]) else None
  {
    HelloBounded(hello);
    var whole := Completed(frame, off, payload, EncodeHello(hello));
    hide EncodeHello, Sni, WellFormed, HostExtension;
    CutHelloExactly(frame, whole, off, hello, k, front, name, more);
  }

  // ---- the tag of every packet ----

  /** The application tag by transport, ports and payload: ICMP 4, DNS 1, TLS 3, HTTP 2, otherwise 0. */
  ghost function WireTag(t: Transport, payload: seq<byte>): byte {
    if t.Other? then if t.protocol == 1 then 4 else 0
    else if t.Udp? then if t.srcPort == 53 || t.dstPort == 53 then 1 else 0
    else if t.srcPort == 443 || t.dstPort == 443 then 3
    else if Request(payload) then 2 else 0
  }

  lemma TagInHeader(p: Packet)
    requires ValidPacket(p) && LayoutOf(p).Ip?
    ensures HeaderOf(p).appTag == TagOf(p)
  {
    hide TagOf;
  }

  lemma OtherTag(p: Packet, protocol: byte)
    requires ValidPacket(p) && LayoutOf(p).Ip? && Protocol(p.frame) == protocol && protocol != 6 && protocol != 17
    ensures TagOf(p) == (if protocol == 1 then 4 else 0)
    ensures DnsWritten(p).None? && HttpWritten(p).None? && SniWritten(p).None?
  {
  }

  lemma UdpTag(p: Packet, src: u16, dst: u16)
    requires HasPorts(p, IPPROTO_UDP, src, dst)
    ensures TagOf(p) == (if src == 53 || dst == 53 then 1 else 0)
    ensures (DnsWritten(p).Some? <==> src == 53 || dst == 53) && HttpWritten(p).None? && SniWritten(p).None?
  {
  }

  /** The tag of every encoded packet, and which of the three strings is written: a DNS name exactly for UDP with port 53,
      an HTTP line exactly for a request of 47 bytes over TCP off port 443, and a server name at most for a TCP packet
      to port 443 or one that leaves from there; it is then what the walk finds. */
  lemma TagExactly(p: Packet, macs: seq<byte>, h: Ipv4, t: Transport, payload: seq<byte>)
    requires Carries(p, macs, h, t, payload)
    ensures ValidPacket(p) && LayoutOf(p).Ip? && TagOf(p) == WireTag(t, payload) && HeaderOf(p).appTag == WireTag(t, payload)
    ensures DnsWritten(p).Some? <==> t.Udp? && (t.srcPort == 53 || t.dstPort == 53)
    ensures HttpWritten(p).Some? <==>
            t.Tcp? && t.srcPort != 443 && t.dstPort != 443 && Request(payload) && |payload| >= 47
    ensures SniWritten(p) == if LookedAt(p, t) then Sni(p.frame, LayoutOf(p).payloadOff) else None
  {
    OtherFound(p, macs, h, t, payload);
    TagInHeader(p);
    if t.Other? {
      OtherTag(p, t.protocol);
    } else {
      PortsFound(p, macs, h, t, payload);
      if t.Udp? {
        UdpTag(p, t.srcPort, t.dstPort);
      } else if t.srcPort == 443 || t.dstPort == 443 {
        TlsByPorts(p, t.srcPort, t.dstPort);
      } else {
        HttpPacketShown(p, macs, h, t, payload);
      }
    }
  }

  /** `p` is a hello packet for the host `name`, in some frame. */
  ghost predicate NamesHost(p: Packet, name: seq<byte>) {
    exists macs, h, t, hello, k, rest :: CarriesHello(p, macs, h, t, hello, k, name, rest)
  }

  lemma NameWritten(p: Packet, name: seq<byte>)
    requires NamesHost(p, name)
    ensures 0 < |name| && ValidPacket(p) && LayoutOf(p).Ip? && SniWritten(p) == Some(name[..Min(|name|, SNI_COPY)])
  {
    var macs, h, t, hello, k: nat, rest :| CarriesHello(p, macs, h, t, hello, k, name, rest);
    HelloPacketShown(p, macs, h, t, hello, k, name, rest);
  }

  lemma ShortNameWritten(p: Packet, name: seq<byte>)
    requires NamesHost(p, name) && |name| < SNI_COPY
    ensures ValidPacket(p) && SniWritten(p) == Some(name) && 1 <= |name|
  {
    hide SniWritten;
    hide NamesHost;
    NameWritten(p, name);
    assert name[..Min(|name|, SNI_COPY)] == name;
  }

  // ---- a hello for any name ----

  lemma SomeHead() returns (head: seq<byte>)
    ensures |head| == HELLO_HEAD && head[0] == 0x16 && head[5] == 0x01
  {
    head := Zeros(HELLO_HEAD)[0 := 0x16][5 := 0x01];
  }

  lemma OneExtension(x: Extension)
    requires |x.data| < U16
    ensures WellFormedExtensions([x]) && |EncodeExtensions([x])| == 4 + |x.data|
  {
    assert [x][1..] == [] && EncodeExtensions([]) == [];
  }

  lemma SomeHello(name: seq<byte>) returns (hello: Hello)
    requires 0 < |name| < 256
    ensures WellFormed(hello) && hello.extensions == [ServerName(name)] && |EncodeHello(hello)| < 0x1_0000
  {
    var head := SomeHead();
    OneExtension(ServerName(name));
    hello := Hello(head, [], [], [], [ServerName(name)]);
  }

  /** There is a hello packet for every name of up to 255 bytes. */
  lemma SomeHelloPacket(name: seq<byte>) returns (p: Packet)
    requires 0 < |name| < 256
    ensures NamesHost(p, name)
  {
    var hello := SomeHello(name);
    var payload, rest := EncodeHello(hello), [];
    assert payload + rest == payload;
    var macs, h, t;
    p, macs, h, t := SomePacket(0, 443, payload);
    assert CarriesHello(p, macs, h, t, hello, 0, name, rest);
  }

  // ---- what earlier names leave behind ----

  ghost predicate AllValid(ps: seq<Packet>) {
    forall i :: 0 <= i < |ps| ==> ValidPacket(ps[i])
  }

  /** The byte that the names copied by the first `i` packets of a run leave at a position: that of the last name
      long enough to reach it, or 0. */
  ghost function LeftAt(ps: seq<Packet>, i: nat, at: nat): byte
    requires AllValid(ps) && i <= |ps|
  {
    if i == 0 then 0
    else if SniWritten(ps[i - 1]).Some? && at < |SniWritten(ps[i - 1]).value| then SniWritten(ps[i - 1]).value[at]
    else LeftAt(ps, i - 1, at)
  }

  lemma LeftStep(s: Strings, p: Packet, at: nat)
    requires ValidStrings(s) && ValidPacket(p) && 1 <= at < SNI_COPY - 1
    ensures ValidStrings(StringsAfter(s, p))
    ensures StringsAfter(s, p).sni[at] ==
            if SniWritten(p).Some? && at < |SniWritten(p).value| then SniWritten(p).value[at] else s.sni[at]
  {
    StringsKeepSize(s, p);
    SniBound(p.frame, if LayoutOf(p).Ip? then LayoutOf(p).payloadOff else 0);
  }

  /** In every run from the zeroed scratch event the bytes 1 to 14 of its name are told by the names copied so far. */
  lemma {:induction false} LeftByHistory(ps: seq<Packet>, i: nat, at: nat)
    requires AllValid(ps) && i <= |ps| && 1 <= at < SNI_COPY - 1
    ensures StringsAt(Zeroed(), ps, i).sni[at] == LeftAt(ps, i, at)
    decreases i
  {
    if i > 0 {
      LeftByHistory(ps, i - 1, at);
      LeftStep(StringsAt(Zeroed(), ps, i - 1), ps[i - 1], at);
    }
  }

  /** The name a reader sees after the first `i` packets of a run, for the next packet `p`. */
  ghost function SeenAfter(ps: seq<Packet>, i: nat, p: Packet): seq<byte>
    requires AllValid(ps) && i <= |ps| && ValidPacket(p)
  {
    SniSeen(StringsAt(Zeroed(), ps, i), p)
  }

  /** The name seen is the copied one and nothing behind it. */
  ghost predicate SeenAlone(ps: seq<Packet>, p: Packet, w: seq<byte>)
    requires AllValid(ps) && ValidPacket(p)
  {
    SeenAfter(ps, |ps|, p) == w
  }

  /** A name of 1 to 14 bytes without a NUL is seen alone exactly when earlier names left a NUL just behind it. */
  lemma NameAloneExactlyWhen(ps: seq<Packet>, p: Packet, w: seq<byte>)
    requires AllValid(ps) && ValidPacket(p)
    requires SniWritten(p) == Some(w) && 1 <= |w| < SNI_COPY - 1 && 0 !in w
    ensures SeenAlone(ps, p, w) <==> LeftAt(ps, |ps|, |w|) == 0
  {
    LeftByHistory(ps, |ps|, |w|);
    ShortNameLeaks(Cleared(StringsAt(Zeroed(), ps, |ps|)).sni, w);
  }

  /** A longer name and then a shorter one, over any scratch event: the shorter is not seen alone. */
  lemma LongerNameShows(s: Strings, p: Packet, long: seq<byte>, q: Packet, short: seq<byte>)
    requires ValidStrings(s) && ValidPacket(p) && ValidPacket(q)
    requires SniWritten(p) == Some(long) && SniWritten(q) == Some(short)
    requires 1 <= |short| < |long| && |short| < SNI_COPY - 1 && 0 !in short && long[|short|] != 0
    ensures ValidStrings(StringsAfter(s, p)) && SniSeen(StringsAfter(s, p), q) != short
  {
    LeftStep(s, p, |short|);
    ShortNameLeaks(Cleared(StringsAfter(s, p)).sni, short);
  }

  /** Two runs from the zeroed scratch event after which `p` shows different names. */
  ghost predicate Differs(p: Packet, ps: seq<Packet>, qs: seq<Packet>)
    requires ValidPacket(p)
  {
    AllValid(ps) && AllValid(qs) && SeenAfter(ps, |ps|, p) != SeenAfter(qs, |qs|, p)
  }

  /** The name a packet shows is the same after every run. */
  ghost predicate SeenTheSame(p: Packet)
    requires ValidPacket(p)
  {
    forall ps: seq<Packet>, qs: seq<Packet> :: !Differs(p, ps, qs)
  }

  /** What the packet writes, if anything, ends itself or fills the 15 bytes. */
  ghost predicate NameEnds(p: Packet)
    requires ValidPacket(p)
  {
    SniWritten(p).Some? ==> Terminated(SniWritten(p).value)
  }

  lemma LeftByOne(p: Packet, at: nat)
    requires ValidPacket(p) && SniWritten(p).Some? && at < |SniWritten(p).value|
    ensures AllValid([p]) && LeftAt([p], 1, at) == SniWritten(p).value[at]
  {
  }

  lemma LongHello() returns (p: Packet)
    ensures ValidPacket(p) && SniWritten(p) == Some(Fill(SNI_COPY - 1, 65))
  {
    var name := Fill(SNI_COPY - 1, 65);
    p := SomeHelloPacket(name);
    ShortNameWritten(p, name);
  }

  lemma DiffersAfter(none: seq<Packet>, one: seq<Packet>, p: Packet, w: seq<byte>)
    requires ValidPacket(p) && AllValid(none) && AllValid(one)
    requires SeenAlone(none, p, w) && !SeenAlone(one, p, w)
    ensures Differs(p, none, one)
  {
  }

  /** An unterminated name is seen differently right after start-up and after one hello with a longer name. */
  lemma SniDiffers(p: Packet, w: seq<byte>)
    requires ValidPacket(p) && SniWritten(p) == Some(w) && 1 <= |w| < SNI_COPY - 1 && 0 !in w
    ensures !SeenTheSame(p)
  {
    hide SniWritten;
    hide SeenAlone;
    hide Differs;
    var long := LongHello();
    LeftByOne(long, |w|);
    var none: seq<Packet>, one := [], [long];
    NameAloneExactlyWhen(none, p, w);
    NameAloneExactlyWhen(one, p, w);
    DiffersAfter(none, one, p, w);
  }

  lemma EndedIsSeenTheSame(p: Packet)
    requires ValidPacket(p) && p.linear >= ETH_HEADER && NameEnds(p)
    ensures SeenTheSame(p)
  {
    forall ps: seq<Packet>, qs: seq<Packet> | AllValid(ps) && AllValid(qs)
      ensures SeenAfter(ps, |ps|, p) == SeenAfter(qs, |qs|, p)
    {
      SniSeenExact(StringsAt(Zeroed(), ps, |ps|), p);
      SniSeenExact(StringsAt(Zeroed(), qs, |qs|), p);
    }
  }

  /** The tls_sni string depends on the packet alone exactly when nothing was copied or the copied name is terminated. */
  lemma SniIndependentExactlyWhen(p: Packet)
    requires ValidPacket(p) && p.linear >= ETH_HEADER
    ensures SeenTheSame(p) <==> NameEnds(p)
  {
    if NameEnds(p) {
      EndedIsSeenTheSame(p);
    } else {
      SniBound(p.frame, LayoutOf(p).payloadOff);
      SniDiffers(p, SniWritten(p).value);
    }
  }

  lemma CopiedTerminated(name: seq<byte>)
    ensures Terminated(name[..Min(|name|, SNI_COPY)]) <==> |name| >= SNI_COPY - 1 || 0 in name
  {
    if |name| < SNI_COPY { assert name[..|name|] == name; }
  }

  lemma HelloEnds(p: Packet, name: seq<byte>)
    requires NamesHost(p, name)
    ensures ValidPacket(p) && p.linear >= ETH_HEADER && (NameEnds(p) <==> |name| >= SNI_COPY - 1 || 0 in name)
  {
    NameWritten(p, name);
    CopiedTerminated(name);
  }

  /** For a well-formed hello the condition is on the host name: at least 15 bytes, or a NUL in it. */
  lemma HelloIndependentExactlyWhen(p: Packet, name: seq<byte>)
    requires NamesHost(p, name)
    ensures ValidPacket(p) && (SeenTheSame(p) <==> |name| >= SNI_COPY - 1 || 0 in name)
  {
    HelloEnds(p, name);
    SniIndependentExactlyWhen(p);
  }

  /** In a run from start-up, a host name of at most 14 bytes without a NUL is seen as it was sent exactly when the
      names before it left a NUL just behind it. */
  lemma HelloSeenExactlyWhen(ps: seq<Packet>, p: Packet, name: seq<byte>)
    requires AllValid(ps) && NamesHost(p, name)
    requires |name| < SNI_COPY - 1 && 0 !in name
    ensures ValidPacket(p) && (SeenAlone(ps, p, name) <==> LeftAt(ps, |ps|, |name|) == 0)
  {
    ShortNameWritten(p, name);
    NameAloneExactlyWhen(ps, p, name);
  }

  /** Two hellos on the wire after start-up: the second name, shorter than 15 bytes and than the first and without a NUL,
      is not seen as it was sent if the first has no NUL at the place behind it. */
  lemma TwoHellos(p: Packet, first: seq<byte>, q: Packet, second: seq<byte>)
    requires NamesHost(p, first) && NamesHost(q, second)
    requires |second| < |first| && |second| < SNI_COPY - 1
    requires 0 !in second && first[|second|] != 0
    ensures ValidPacket(p) && ValidPacket(q) && AllValid([p]) && !SeenAlone([p], q, second)
  {
    LeftByHello(p, first, |second|);
    HelloSeenExactlyWhen([p], q, second);
  }

  lemma LeftByHello(p: Packet, name: seq<byte>, at: nat)
    requires NamesHost(p, name) && at < |name| && at < SNI_COPY
    ensures ValidPacket(p) && AllValid([p]) && LeftAt([p], 1, at) == name[at]
  {
    NameWritten(p, name);
    LeftByOne(p, at);
  }
}
