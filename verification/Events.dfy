/** The event pksniff's kernel side emits for every captured packet (Pksniff.h). */
module Events {
  import opened Prelude

  const MAX_CAPTURE: nat := 256

  const IPPROTO_ICMP: byte := 1
  const IPPROTO_TCP: byte := 6
  const IPPROTO_UDP: byte := 17

  const APP_NONE: byte := 0
  const APP_DNS: byte := 1
  const APP_HTTP: byte := 2
  const APP_TLS: byte := 3
  const APP_ICMP: byte := 4

  const DIR_INGRESS: byte := 0
  const DIR_EGRESS: byte := 1

  /** The scalar fields; addresses are the four bytes read as a little-endian number. */
  datatype Header = Header(
    ktime: u64, srcIp: u32, dstIp: u32, ipTotLen: u16, ttl: byte, ipProto: byte, ipFlags: byte,
    srcPort: u16, dstPort: u16, tcpFlags: byte, l4Off: u16, payloadOff: u16, payloadLen: u16,
    packetLen: u32, capLen: u32, direction: byte, appTag: byte)

  /** `packet` is the 256-byte capture buffer; its first header.capLen bytes are meaningful. */
  datatype Event = Event(header: Header, dnsName: seq<byte>, httpInfo: seq<byte>, tlsSni: seq<byte>, packet: seq<byte>)

  /** What the capture loop guarantees and the pcap writer relies on. */
  predicate WellCaptured(e: Event) {
    |e.packet| == MAX_CAPTURE && e.header.capLen <= MAX_CAPTURE
  }
}
