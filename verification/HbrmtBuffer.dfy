/** Datagrams in a caller's buffer: the headers stored field by field, and nothing outside
  * the datagram touched. */
module HbrmtBuffer {
  import opened Wrappers
  import opened Hbrmt
  import Bitpack

  /** A store at `at`, seen from the bytes before it was made. */
  ghost predicate Spliced(now: seq<Byte>, was: seq<Byte>, at: nat, b: seq<Byte>) {
    at + |b| <= |was| && now == was[..at] + b + was[at + |b|..]
  }

  /** Two stores side by side are one. */
  lemma {:induction false} SplicedJoin(now: seq<Byte>, mid: seq<Byte>, was: seq<Byte>, at: nat, a: seq<Byte>, b: seq<Byte>)
    requires Spliced(mid, was, at, a) && Spliced(now, mid, at + |a|, b)
    ensures Spliced(now, was, at, a + b)
  {
    assert mid[..at + |a|] == was[..at] + a;
    assert mid[at + |a| + |b|..] == was[at + |a| + |b|..];
  }

  method Put32Be(v: nat, dst: array<Byte>, at: nat)
    requires v < 0x1_0000_0000 && at + 4 <= dst.Length
    modifies dst
    ensures Spliced(dst[..], old(dst[..]), at, Put32(v))
  {
    var x := v / 256;
    var y := x / 256;
    var b: seq<Byte> := [y / 256, y % 256, x % 256, v % 256];
    Bitpack.Store(dst, at, b);
  }

  method WriteRtpHeader(h: RtpHeader, dst: array<Byte>, at: nat)
    requires h.InRange() && at + RTP_HEADER_BYTES <= dst.Length
    modifies dst
    ensures Spliced(dst[..], old(dst[..]), at, WriteRtp(h))
  {
    hide Spliced, Put32;
    ghost var was := dst[..];
    var first: seq<Byte> :=
      [h.version * 64 + Flag(h.padding, 32) + Flag(h.extension, 16) + h.csrcCount,
       Flag(h.marker, 128) + h.payloadType, h.sequence / 256, h.sequence % 256];
    PutBytes(dst, at, first);
    ghost var four := dst[..];
    Put32Be(h.timestamp, dst, at + 4);
    SplicedJoin(dst[..], four, was, at, first, Put32(h.timestamp));
    ghost var eight := dst[..];
    Put32Be(h.ssrc, dst, at + 8);
    SplicedJoin(dst[..], eight, was, at, first + Put32(h.timestamp), Put32(h.ssrc));
  }

  method PutBytes(dst: array<Byte>, at: nat, b: seq<Byte>)
    requires at + |b| <= dst.Length
    modifies dst
    ensures Spliced(dst[..], old(dst[..]), at, b)
  {
    Bitpack.Store(dst, at, b);
  }

  method WriteHbrmtHeader(h: HbrmtHeader, dst: array<Byte>, at: nat)
    requires h.InRange() && at + h.SizeBytes() <= dst.Length
    modifies dst
    ensures Spliced(dst[..], old(dst[..]), at, WriteHbrmt(h))
  {
    hide Spliced, Put32;
    ghost var was := dst[..];
    var eight: seq<Byte> :=
      [h.ext * 16 + Flag(h.formatFlag, 8) + h.vsid, h.frCount,
       h.r * 64 + h.s * 16 + h.fec * 2 + h.cf / 8, h.cf % 8 * 32,
       h.map_ * 16 + h.frame / 16, h.frame % 16 * 16 + h.frate / 16,
       h.frate % 16 * 16 + h.sample, 0];
    PutBytes(dst, at, eight);
    if h.cf != 0 {
      ghost var mid := dst[..];
      Put32Be(h.videoTimestamp, dst, at + 8);
      SplicedJoin(dst[..], mid, was, at, eight, Put32(h.videoTimestamp));
    } else {
      assert eight + [] == eight;
    }
  }

  /** Build a datagram at `at` if it fits in `capacity` bytes, and say how long it is; else
    * leave the buffer alone and say nothing was built. */
  method BuildDatagram(rtp: RtpHeader, hbrmt: HbrmtHeader, payload: seq<Byte>, dst: array<Byte>, at: nat, capacity: nat)
    returns (total: nat)
    requires rtp.InRange() && hbrmt.InRange() && at + capacity <= dst.Length
    modifies dst
    ensures total == (if |Build(rtp, hbrmt, payload)| <= capacity then |Build(rtp, hbrmt, payload)| else 0)
    ensures if total > 0 then Spliced(dst[..], old(dst[..]), at, Build(rtp, hbrmt, payload)) else dst[..] == old(dst[..])
  {
    hide Spliced, WriteRtp, WriteHbrmt;
    ghost var was := dst[..];
    total := RTP_HEADER_BYTES + hbrmt.SizeBytes() + |payload|;
    if capacity < total { return 0; }
    WriteRtpHeader(rtp, dst, at);
    ghost var mid := dst[..];
    WriteHbrmtHeader(hbrmt, dst, at + RTP_HEADER_BYTES);
    SplicedJoin(dst[..], mid, was, at, WriteRtp(rtp), WriteHbrmt(hbrmt));
    ghost var heads := dst[..];
    PutBytes(dst, at + RTP_HEADER_BYTES + hbrmt.SizeBytes(), payload);
    SplicedJoin(dst[..], heads, was, at, WriteRtp(rtp) + WriteHbrmt(hbrmt), payload);
  }

  /** What was built in a buffer parses back from it, wherever it lies. */
  lemma {:induction false} BuiltParses(now: seq<Byte>, was: seq<Byte>, at: nat,
                                       rtp: RtpHeader, hbrmt: HbrmtHeader, payload: seq<Byte>)
    requires rtp.InRange() && rtp.version == 2 && rtp.csrcCount == 0
    requires hbrmt.InRange() && (hbrmt.cf == 0 ==> hbrmt.videoTimestamp == 0)
    requires Spliced(now, was, at, Build(rtp, hbrmt, payload))
    ensures at + |Build(rtp, hbrmt, payload)| <= |now|
    ensures Parse(now[at..at + |Build(rtp, hbrmt, payload)|]) == Some(Datagram(rtp, hbrmt, payload))
    ensures forall i :: 0 <= i < at || at + |Build(rtp, hbrmt, payload)| <= i < |was| ==> |now| == |was| && now[i] == was[i]
  {
    hide Build, Parse, RtpHeader.InRange, HbrmtHeader.InRange;
    ParseBuild(rtp, hbrmt, payload);
    assert now[at..at + |Build(rtp, hbrmt, payload)|] == Build(rtp, hbrmt, payload);
  }
}
