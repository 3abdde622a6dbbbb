/** pksniff, user side: the pcap writer and a reader that inverts it
    (draft-ietf-opsawg-pcap, sections 4 and 5; little-endian, as the writer's machine stores numbers). */
module Pcap {
  import opened Prelude
  import opened Events

  const GLOBAL_HEADER: nat := 24
  const RECORD_HEADER: nat := 16

  /** A wall-clock reading. */
  datatype Stamp = Stamp(sec: u32, usec: u32)

  /** A packet record: its four header words and its bytes; incl_len is the number of bytes. */
  datatype Record = Record(sec: u32, usec: u32, origLen: u32, bytes: seq<byte>)

  function Le16(n: u16): (b: seq<byte>)
    ensures |b| == 2
  {
    [AsByte(n % 256), AsByte(n / 256)]
  }

  function Le32(n: u32): (b: seq<byte>)
    ensures |b| == 4
  {
    [AsByte(n % 256), AsByte(n / 0x100 % 256), AsByte(n / 0x1_0000 % 256), AsByte(n / 0x100_0000)]
  }

  function FromLe32(b: seq<byte>): u32
    requires |b| == 4
  {
    b[0] as int + 0x100 * b[1] as int + 0x1_0000 * b[2] as int + 0x100_0000 * b[3] as int
  }

  /** Two divisions by 256 are one. */
  lemma Nested(n: nat)
    ensures n / 0x100 / 0x100 == n / 0x1_0000
  {
    var q, r := n / 0x1_0000, n % 0x1_0000;
    assert n == 0x1_0000 * q + r;
    assert n / 0x100 == 0x100 * q + r / 0x100;
  }

  lemma Le32RoundTrip(n: u32)
    ensures FromLe32(Le32(n)) == n
  {
    var r := n / 0x100;
    var q := r / 0x100;
    Nested(n);
    Nested(r);
    assert n / 0x100_0000 == q / 0x100;
    assert n == 0x100 * r + n % 256 && r == 0x100 * q + r % 256 && q == 0x100 * (q / 0x100) + q % 256;
  }

  /** Magic, version 2.4, time zone and accuracy 0, snapshot length 256, Ethernet. */
  function GlobalHeader(): (b: seq<byte>)
    ensures |b| == GLOBAL_HEADER
  {
    Le32(0xa1b2_c3d4) + Le16(2) + Le16(4) + Le32(0) + Le32(0) + Le32(MAX_CAPTURE) + Le32(1)
  }

  function RecordHeader(r: Record): (b: seq<byte>)
    requires |r.bytes| <= MAX_CAPTURE
    ensures |b| == RECORD_HEADER
  {
    Le32(r.sec) + Le32(r.usec) + Le32(|r.bytes|) + Le32(r.origLen)
  }

  function EncodeRecord(r: Record): seq<byte>
    requires |r.bytes| <= MAX_CAPTURE
  {
    RecordHeader(r) + r.bytes
  }

  predicate Fitting(rs: seq<Record>) {
    forall i :: 0 <= i < |rs| ==> |rs[i].bytes| <= MAX_CAPTURE
  }

  /** The records of a file, one after the other. */
  function EncodeRecords(rs: seq<Record>): seq<byte>
    requires Fitting(rs)
  {
    if rs == [] then [] else EncodeRecord(rs[0]) + EncodeRecords(rs[1..])
  }

  function EncodeFile(rs: seq<Record>): seq<byte>
    requires Fitting(rs)
  {
    GlobalHeader() + EncodeRecords(rs)
  }

  /** The record `pcap_write_record` makes of an event at a given wall-clock time. */
  function RecordOf(stamp: Stamp, e: Event): (r: Record)
    requires WellCaptured(e)
    ensures |r.bytes| <= MAX_CAPTURE
  {
    Record(stamp.sec, stamp.usec, e.header.packetLen, e.packet[..e.header.capLen])
  }

  // ---- the writer ----

  class PcapFile {
    var bytes: seq<byte>
    ghost var records: seq<Record>

    ghost predicate Valid()
      reads this
    {
      Fitting(records) && bytes == EncodeFile(records)
    }

    /** A newly opened file with its global header. */
    constructor ()
      ensures Valid() && records == []
    {
      bytes := GlobalHeader();
      records := [];
      new;
      assert GlobalHeader() + [] == GlobalHeader();
    }

    method WriteRecord(stamp: Stamp, e: Event)
      requires Valid() && WellCaptured(e)
      modifies this
      ensures Valid() && records == old(records) + [RecordOf(stamp, e)]
    {
      var r := RecordOf(stamp, e);
      FileSnoc(records, r);
      bytes := bytes + (Le32(stamp.sec) + Le32(stamp.usec) + Le32(e.header.capLen) + Le32(e.header.packetLen));
      bytes := bytes + e.packet[..e.header.capLen];
      records := records + [r];
    }
  }

  lemma {:induction false} EncodeSnoc(rs: seq<Record>, r: Record)
    requires Fitting(rs) && |r.bytes| <= MAX_CAPTURE
    ensures EncodeRecords(rs + [r]) == EncodeRecords(rs) + EncodeRecord(r)
  {
    if rs == [] {
      assert (rs + [r])[1..] == [];
    } else {
      assert (rs + [r])[1..] == rs[1..] + [r];
      EncodeSnoc(rs[1..], r);
    }
  }

  lemma FileSnoc(rs: seq<Record>, r: Record)
    requires Fitting(rs) && |r.bytes| <= MAX_CAPTURE
    ensures Fitting(rs + [r]) && EncodeFile(rs + [r]) == EncodeFile(rs) + RecordHeader(r) + r.bytes
  {
    EncodeSnoc(rs, r);
    assert EncodeFile(rs + [r]) == EncodeFile(rs) + (RecordHeader(r) + r.bytes);
  }

  // ---- a reader ----

  datatype FileHeader = FileHeader(
    magic: u32, major: u16, minor: u16, zone: u32, accuracy: u32, snapLen: u32, linkType: u32)

  /** What a reader makes of a file. */
  datatype Capture = Capture(header: FileHeader, records: seq<Record>)

  function FromLe16(b: seq<byte>): u16
    requires |b| == 2
  {
    b[0] as int + 0x100 * b[1] as int
  }

  /** The words of a file header, at their places. */
  function ReadHeader(b: seq<byte>): FileHeader
    requires |b| == 24
  {
    FileHeader(FromLe32(b[0..4]), FromLe16(b[4..6]), FromLe16(b[6..8]), FromLe32(b[8..12]), FromLe32(b[12..16]),
               FromLe32(b[16..20]), FromLe32(b[20..24]))
  }

  /** Reads records until the bytes run out; None for a malformed file. */
  function DecodeRecords(b: seq<byte>, snapLen: u32): Option<seq<Record>>
    decreases |b|
  {
    if b == [] then Some([])
    else if |b| < 16 then None
    else
      var len := FromLe32(b[8..12]);
      if len > snapLen || |b| < 16 + len then None
      else
        var rest := DecodeRecords(b[16 + len..], snapLen);
        if rest.None? then None
        else Some([Record(FromLe32(b[0..4]), FromLe32(b[4..8]), FromLe32(b[12..16]), b[16..16 + len])] + rest.value)
  }

  /** Reads a little-endian capture file of version 2.4 with microsecond stamps. */
  function DecodeFile(b: seq<byte>): Option<Capture> {
    if |b| < 24 then None
    else
      var h := ReadHeader(b[..24]);
      if h.magic != 0xa1b2_c3d4 || h.major != 2 || h.minor != 4 then None
      else
        var records := DecodeRecords(b[24..], h.snapLen);
        if records.None? then None else Some(Capture(h, records.value))
  }

  /** A reader finds an Ethernet capture with snapshot length 256, zone and accuracy 0, and these records. */
  ghost predicate ReadsAs(b: seq<byte>, rs: seq<Record>) {
    DecodeFile(b) == Some(Capture(FileHeader(0xa1b2_c3d4, 2, 4, 0, 0, 256, 1), rs))
  }

  lemma {:induction false} RecordsFit(b: seq<byte>, snapLen: u32)
    requires DecodeRecords(b, snapLen).Some?
    ensures forall r <- DecodeRecords(b, snapLen).value :: |r.bytes| <= snapLen
    decreases |b|
  {
    if b != [] { RecordsFit(b[16 + FromLe32(b[8..12])..], snapLen); }
  }

  /** A readable file has the magic number and version, and no record longer than the snapshot length it gives. */
  lemma DecodedFit(b: seq<byte>)
    requires DecodeFile(b).Some?
    ensures var h := DecodeFile(b).value.header; h.magic == 0xa1b2_c3d4 && h.major == 2 && h.minor == 4
    ensures forall r <- DecodeFile(b).value.records :: |r.bytes| <= DecodeFile(b).value.header.snapLen
  {
    RecordsFit(b[24..], ReadHeader(b[..24]).snapLen);
  }

  lemma Le16RoundTrip(n: u16)
    ensures FromLe16(Le16(n)) == n
  {
  }

  lemma HeaderSlices(magic: seq<byte>, major: seq<byte>, minor: seq<byte>, zone: seq<byte>, accuracy: seq<byte>,
                     snap: seq<byte>, link: seq<byte>)
    requires |magic| == |zone| == |accuracy| == |snap| == |link| == 4 && |major| == |minor| == 2
    ensures var b := magic + major + minor + zone + accuracy + snap + link;
            && |b| == 24 && b[0..4] == magic && b[4..6] == major && b[6..8] == minor && b[8..12] == zone
            && b[12..16] == accuracy && b[16..20] == snap && b[20..24] == link
  {
  }

  /** The written header, word by word. */
  lemma HeaderReads()
    ensures ReadHeader(GlobalHeader()) == FileHeader(0xa1b2_c3d4, 2, 4, 0, 0, 256, 1)
  {
    HeaderSlices(Le32(0xa1b2_c3d4), Le16(2), Le16(4), Le32(0), Le32(0), Le32(MAX_CAPTURE), Le32(1));
    hide Le32, Le16, FromLe32, FromLe16;
    Le32RoundTrip(0xa1b2_c3d4);
    Le32RoundTrip(0);
    Le32RoundTrip(MAX_CAPTURE);
    Le32RoundTrip(1);
    Le16RoundTrip(2);
    Le16RoundTrip(4);
  }

  /** The words of a record header, read off the front of the file. */
  lemma HeaderWords(r: Record, rest: seq<byte>)
    requires |r.bytes| <= MAX_CAPTURE
    ensures var b := RecordHeader(r) + (r.bytes + rest);
            && FromLe32(b[0..4]) == r.sec && FromLe32(b[4..8]) == r.usec
            && FromLe32(b[8..12]) == |r.bytes| && FromLe32(b[12..16]) == r.origLen
            && b[RECORD_HEADER..RECORD_HEADER + |r.bytes|] == r.bytes
            && b[RECORD_HEADER + |r.bytes|..] == rest
  {
    var h := RecordHeader(r);
    var b := h + (r.bytes + rest);
    assert b[0..4] == h[0..4] == Le32(r.sec);
    assert b[4..8] == h[4..8] == Le32(r.usec);
    assert b[8..12] == h[8..12] == Le32(|r.bytes|);
    assert b[12..16] == h[12..16] == Le32(r.origLen);
    Le32RoundTrip(r.sec);
    Le32RoundTrip(r.usec);
    Le32RoundTrip(|r.bytes|);
    Le32RoundTrip(r.origLen);
  }

  /** A record at the front of the bytes is read off them. */
  lemma DecodeFirst(r: Record, rest: seq<byte>, rs: seq<Record>, snapLen: u32)
    requires |r.bytes| <= MAX_CAPTURE && |r.bytes| <= snapLen && DecodeRecords(rest, snapLen) == Some(rs)
    ensures DecodeRecords(EncodeRecord(r) + rest, snapLen) == Some([r] + rs)
  {
    HeaderWords(r, rest);
    assert EncodeRecord(r) + rest == RecordHeader(r) + (r.bytes + rest);
  }

  /** Decoding is a left inverse of encoding, for any snapshot length that no record exceeds. */
  lemma {:induction false} RecordsRoundTrip(rs: seq<Record>, snapLen: u32)
    requires Fitting(rs) && forall i :: 0 <= i < |rs| ==> |rs[i].bytes| <= snapLen
    ensures DecodeRecords(EncodeRecords(rs), snapLen) == Some(rs)
    decreases rs
  {
    if rs == [] {
    } else {
      hide EncodeRecord, FromLe32;
      var r, rest := rs[0], rs[1..];
      RecordsRoundTrip(rest, snapLen);
      DecodeFirst(r, EncodeRecords(rest), rest, snapLen);
      assert [r] + rest == rs;
    }
  }

  /** Every written file is well formed and decodes to the records written. */
  lemma FileRoundTrip(rs: seq<Record>)
    requires Fitting(rs)
    ensures ReadsAs(EncodeFile(rs), rs)
  {
    var b := EncodeFile(rs);
    HeaderReads();
    RecordsRoundTrip(rs, 256);
    hide GlobalHeader, EncodeRecords;
    assert b[..24] == GlobalHeader() && b[24..] == EncodeRecords(rs);
  }

  /** The decoding is unique: different record lists make different files. */
  lemma FileUnique(rs: seq<Record>, ss: seq<Record>)
    requires Fitting(rs) && Fitting(ss) && EncodeFile(rs) == EncodeFile(ss)
    ensures rs == ss
  {
    FileRoundTrip(rs);
    FileRoundTrip(ss);
  }
}
