/** RTP and the ST 2022-6 HBRMT payload header: whole datagrams, both ways. */
module Hbrmt {
  import opened Wrappers
  import opened Gf2

  const PAYLOAD_BYTES: nat := 1376
  const RTP_HEADER_BYTES: nat := 12
  const HBRMT_HEADER_BYTES: nat := 8
  const TIMESTAMP_BYTES: nat := 4

  datatype RtpHeader = RtpHeader(
    version: nat, padding: bool, extension: bool, csrcCount: nat,
    marker: bool, payloadType: nat, sequence: nat, timestamp: nat, ssrc: nat)
  {
    predicate InRange() {
      && version < 4 && csrcCount < 16 && payloadType < 128
      && sequence < 0x10000 && timestamp < 0x1_0000_0000 && ssrc < 0x1_0000_0000
    }
  }

  datatype HbrmtHeader = HbrmtHeader(
    ext: nat, formatFlag: bool, vsid: nat, frCount: nat,
    r: nat, s: nat, fec: nat, cf: nat,
    map_: nat, frame: nat, frate: nat, sample: nat, videoTimestamp: nat)
  {
    predicate InRange() {
      && ext < 16 && vsid < 8 && frCount < 256 && r < 4 && s < 4 && fec < 8 && cf < 16
      && map_ < 16 && frame < 256 && frate < 256 && sample < 16 && videoTimestamp < 0x1_0000_0000
    }

    function SizeBytes(): nat {
      HBRMT_HEADER_BYTES + if cf != 0 then TIMESTAMP_BYTES else 0
    }
  }

  function Flag(b: bool, weight: nat): nat { if b then weight else 0 }

  // ---------------------------------------------------------------------------
  // Big-endian fields
  // ---------------------------------------------------------------------------

  function Put32(v: nat): (r: seq<Byte>)
    requires v < 0x1_0000_0000
    ensures |r| == 4
  {
    var x := v / 256;
    var y := x / 256;
    [y / 256, y % 256, x % 256, v % 256]
  }

  function Get32(b: seq<Byte>): (v: nat)
    requires |b| >= 4
    ensures v < 0x1_0000_0000
  {
    var x: nat := b[0];
    ((x * 256 + b[1]) * 256 + b[2]) * 256 + b[3]
  }

  lemma {:induction false} Get32Put32(v: nat, rest: seq<Byte>)
    requires v < 0x1_0000_0000
    ensures Get32(Put32(v) + rest) == v
  {}

  // ---------------------------------------------------------------------------
  // The headers
  // ---------------------------------------------------------------------------

  function WriteRtp(h: RtpHeader): (r: seq<Byte>)
    requires h.InRange()
    ensures |r| == RTP_HEADER_BYTES
  {
    [h.version * 64 + Flag(h.padding, 32) + Flag(h.extension, 16) + h.csrcCount,
     Flag(h.marker, 128) + h.payloadType,
     h.sequence / 256, h.sequence % 256] + Put32(h.timestamp) + Put32(h.ssrc)
  }

  function ReadRtp(b: seq<Byte>): Option<RtpHeader> {
    if |b| < RTP_HEADER_BYTES then None
    else
      var b2: nat := b[2];
      var h := RtpHeader(b[0] / 64, b[0] / 32 % 2 == 1, b[0] / 16 % 2 == 1, b[0] % 16,
                         b[1] / 128 == 1, b[1] % 128,
                         b2 * 256 + b[3], Get32(b[4..]), Get32(b[8..]));
      if h.version == 2 then Some(h) else None
  }

  function WriteHbrmt(h: HbrmtHeader): (r: seq<Byte>)
    requires h.InRange()
    ensures |r| == h.SizeBytes()
  {
    [h.ext * 16 + Flag(h.formatFlag, 8) + h.vsid,
     h.frCount,
     h.r * 64 + h.s * 16 + h.fec * 2 + h.cf / 8,
     h.cf % 8 * 32,
     h.map_ * 16 + h.frame / 16,
     h.frame % 16 * 16 + h.frate / 16,
     h.frate % 16 * 16 + h.sample,
     0] + if h.cf != 0 then Put32(h.videoTimestamp) else []
  }

  function ReadHbrmt(b: seq<Byte>): Option<HbrmtHeader> {
    if |b| < HBRMT_HEADER_BYTES then None
    else
      var b2: nat, b4: nat, b5: nat := b[2], b[4], b[5];
      var cf := b2 % 2 * 8 + b[3] / 32;
      if cf != 0 && |b| < HBRMT_HEADER_BYTES + TIMESTAMP_BYTES then None
      else
        Some(HbrmtHeader(b[0] / 16, b[0] / 8 % 2 == 1, b[0] % 8, b[1],
                         b[2] / 64, b[2] / 16 % 4, b[2] / 2 % 8, cf,
                         b[4] / 16, b4 % 16 * 16 + b[5] / 16, b5 % 16 * 16 + b[6] / 16, b[6] % 16,
                         if cf != 0 then Get32(b[8..]) else 0))
  }

  /** The RTP header byte by byte (RFC 3550, section 5.1). */
  lemma {:induction false} RtpOnWire(h: RtpHeader)
    requires h.InRange()
    ensures var b := WriteRtp(h);
            && b[0] / 64 == h.version && (b[0] / 32 % 2 == 1 <==> h.padding) && (b[0] / 16 % 2 == 1 <==> h.extension)
            && b[0] % 16 == h.csrcCount && (b[1] / 128 == 1 <==> h.marker) && b[1] % 128 == h.payloadType
    ensures Number16(WriteRtp(h), 2) == h.sequence
    ensures Number32(WriteRtp(h), 4) == h.timestamp && Number32(WriteRtp(h), 8) == h.ssrc
  {
    RtpBits(h.version, h.padding, h.extension, h.csrcCount);
    FourBytes(h.timestamp);
    FourBytes(h.ssrc);
    hide Put32;
    var b := WriteRtp(h);
    assert b[4..8] == Put32(h.timestamp) && b[8..12] == Put32(h.ssrc);
    assert b[4] == b[4..8][0] && b[5] == b[4..8][1] && b[6] == b[4..8][2] && b[7] == b[4..8][3];
    assert b[8] == b[8..12][0] && b[9] == b[8..12][1] && b[10] == b[8..12][2] && b[11] == b[8..12][3];
  }

  /** Two bytes, and four, as a number: the first is the highest. */
  function Number16(b: seq<Byte>, at: nat): int
    requires at + 2 <= |b|
  {
    0x100 * (b[at] as int) + b[at + 1]
  }

  function Number32(b: seq<Byte>, at: nat): int
    requires at + 4 <= |b|
  {
    0x100_0000 * (b[at] as int) + 0x1_0000 * (b[at + 1] as int) + 0x100 * (b[at + 2] as int) + b[at + 3]
  }

  lemma RtpBits(v: nat, p: bool, x: bool, c: nat)
    requires v < 4 && c < 16
    ensures var b := v * 64 + Flag(p, 32) + Flag(x, 16) + c;
            b / 64 == v && (b / 32 % 2 == 1 <==> p) && (b / 16 % 2 == 1 <==> x) && b % 16 == c
  {}

  lemma FourBytes(v: nat)
    requires v < 0x1_0000_0000
    ensures Number32(Put32(v), 0) == v
  {}

  /** The HBRMT header byte by byte (SMPTE ST 2022-6), the time stamp in the four bytes after it
    * if there is one. */
  lemma {:induction false} HbrmtOnWire(h: HbrmtHeader)
    requires h.InRange()
    ensures var b := WriteHbrmt(h);
            && b[0] / 16 == h.ext && (b[0] / 8 % 2 == 1 <==> h.formatFlag) && b[0] % 8 == h.vsid && b[1] == h.frCount
            && b[2] / 64 == h.r && b[2] / 16 % 4 == h.s && b[2] / 2 % 8 == h.fec
            && 8 * (b[2] % 2) + b[3] / 32 == h.cf && b[3] % 32 == 0
            && b[4] / 16 == h.map_ && 16 * (b[4] % 16) + b[5] / 16 == h.frame
            && 16 * (b[5] % 16) + b[6] / 16 == h.frate && b[6] % 16 == h.sample && b[7] == 0
            && |b| == (if h.cf != 0 then 12 else 8) && (h.cf != 0 ==> Number32(b, 8) == h.videoTimestamp)
  {
    var b := WriteHbrmt(h);
    Nibbles(h.ext, h.formatFlag, h.vsid);
    TimingByte(h.r, h.s, h.fec, h.cf);
    DivMod(h.cf % 8, 0, 32);
    DivMod(h.map_, h.frame / 16, 16);
    DivMod(h.frame % 16, h.frate / 16, 16);
    DivMod(h.frate % 16, h.sample, 16);
    if h.cf != 0 {
      FourBytes(h.videoTimestamp);
      hide Put32;
      assert b[8..12] == Put32(h.videoTimestamp);
      assert b[8] == b[8..12][0] && b[9] == b[8..12][1] && b[10] == b[8..12][2] && b[11] == b[8..12][3];
    }
  }

  lemma {:induction false} ReadWriteRtp(h: RtpHeader, rest: seq<Byte>)
    requires h.InRange() && h.version == 2
    ensures ReadRtp(WriteRtp(h) + rest) == Some(h)
  {
    var b := WriteRtp(h) + rest;
    assert b[4..] == Put32(h.timestamp) + (Put32(h.ssrc) + rest);
    assert b[8..] == Put32(h.ssrc) + rest;
    Get32Put32(h.timestamp, Put32(h.ssrc) + rest);
    Get32Put32(h.ssrc, rest);
    RtpFlags(h.padding, h.extension, h.csrcCount);
  }

  lemma RtpFlags(p: bool, x: bool, c: nat)
    requires c < 16
    ensures var b := 128 + Flag(p, 32) + Flag(x, 16) + c;
            b / 64 == 2 && (b / 32 % 2 == 1 <==> p) && (b / 16 % 2 == 1 <==> x) && b % 16 == c
  {}

  lemma {:induction false} ReadWriteHbrmt(h: HbrmtHeader, rest: seq<Byte>)
    requires h.InRange() && (h.cf == 0 ==> h.videoTimestamp == 0)
    ensures ReadHbrmt(WriteHbrmt(h) + rest) == Some(h)
  {
    var b := WriteHbrmt(h) + rest;
    if h.cf != 0 {
      assert b[8..] == Put32(h.videoTimestamp) + rest;
      Get32Put32(h.videoTimestamp, rest);
    }
    hide Put32, Get32;
    Nibbles(h.ext, h.formatFlag, h.vsid);
    TimingByte(h.r, h.s, h.fec, h.cf);
    DivMod(h.cf % 8, 0, 32);
    DivMod(h.map_, h.frame / 16, 16);
    DivMod(h.frame % 16, h.frate / 16, 16);
    DivMod(h.frate % 16, h.sample, 16);
  }

  lemma Nibbles(e: nat, f: bool, v: nat)
    requires e < 16 && v < 8
    ensures var b := e * 16 + Flag(f, 8) + v; b / 16 == e && (b / 8 % 2 == 1 <==> f) && b % 8 == v
  {}

  lemma TimingByte(r: nat, s: nat, fec: nat, cf: nat)
    requires r < 4 && s < 4 && fec < 8 && cf < 16
    ensures var b := r * 64 + s * 16 + fec * 2 + cf / 8;
            b / 64 == r && b / 16 % 4 == s && b / 2 % 8 == fec && b % 2 == cf / 8
  {
    var b := r * 64 + s * 16 + fec * 2 + cf / 8;
    DivModUnique(b, r, s * 16 + fec * 2 + cf / 8, 64);
    DivModUnique(b, r * 4 + s, fec * 2 + cf / 8, 16);
    DivMod(r, s, 4);
    DivModUnique(b, r * 32 + s * 8 + fec, cf / 8, 2);
    DivModUnique(r * 32 + s * 8 + fec, r * 4 + s, fec, 8);
  }

  // ---------------------------------------------------------------------------
  // Whole datagrams
  // ---------------------------------------------------------------------------

  datatype Datagram = Datagram(rtp: RtpHeader, hbrmt: HbrmtHeader, payload: seq<Byte>)

  function Build(rtp: RtpHeader, hbrmt: HbrmtHeader, payload: seq<Byte>): (r: seq<Byte>)
    requires rtp.InRange() && hbrmt.InRange()
    ensures |r| == RTP_HEADER_BYTES + hbrmt.SizeBytes() + |payload|
  {
    WriteRtp(rtp) + WriteHbrmt(hbrmt) + payload
  }

  function Parse(packet: seq<Byte>): Option<Datagram> {
    match ReadRtp(packet)
    case None => None
    case Some(rtp) =>
      var rtpLen := RTP_HEADER_BYTES + rtp.csrcCount * 4;
      if |packet| < rtpLen then None
      else match ReadHbrmt(packet[rtpLen..])
        case None => None
        case Some(hbrmt) =>
          var off := rtpLen + hbrmt.SizeBytes();
          if |packet| < off then None else Some(Datagram(rtp, hbrmt, packet[off..]))
  }

  /** Where the HBRMT header of a datagram begins: behind the RTP header and its CSRC list. */
  function HbrmtAt(packet: seq<Byte>): nat
    requires |packet| >= 12
  {
    12 + 4 * (packet[0] % 16)
  }

  /** A datagram is taken exactly if it is RTP version 2 and long enough for its CSRC list, the
    * HBRMT header and, if that says there is one, its time stamp; and the payload is the rest. */
  lemma {:induction false} ParsesExactly(packet: seq<Byte>)
    ensures Parse(packet).Some?
            <==> && |packet| >= 12 && packet[0] / 64 == 2
                 && |packet| >= HbrmtAt(packet) + 8
                 && (packet[HbrmtAt(packet) + 2] % 2 != 0 || packet[HbrmtAt(packet) + 3] / 32 != 0 ==>
                       |packet| >= HbrmtAt(packet) + 12)
    ensures Parse(packet).Some? ==>
              var timed := packet[HbrmtAt(packet) + 2] % 2 != 0 || packet[HbrmtAt(packet) + 3] / 32 != 0;
              Parse(packet).value.payload == packet[HbrmtAt(packet) + if timed then 12 else 8..]
  {
    hide Get32;
  }

  /** A datagram parses back to the headers and payload it was built from.  The
    * builder writes no CSRC list, so the count has to be zero. */
  lemma {:induction false} ParseBuild(rtp: RtpHeader, hbrmt: HbrmtHeader, payload: seq<Byte>)
    requires rtp.InRange() && rtp.version == 2 && rtp.csrcCount == 0
    requires hbrmt.InRange() && (hbrmt.cf == 0 ==> hbrmt.videoTimestamp == 0)
    ensures Parse(Build(rtp, hbrmt, payload)) == Some(Datagram(rtp, hbrmt, payload))
  {
    hide ReadRtp, ReadHbrmt, WriteRtp, WriteHbrmt;
    var b := Build(rtp, hbrmt, payload);
    assert b == WriteRtp(rtp) + (WriteHbrmt(hbrmt) + payload);
    ReadWriteRtp(rtp, WriteHbrmt(hbrmt) + payload);
    assert b[RTP_HEADER_BYTES..] == WriteHbrmt(hbrmt) + payload;
    ReadWriteHbrmt(hbrmt, payload);
  }
}
