/** Cutting frames into datagrams with fresh headers, and the way back: what the merge
  * and the frame cutter make of a packetised stream spread over two lossy legs. */
module Packetise {
  import opened Wrappers
  import opened Merge
  import opened FrameCutter
  import opened Hbrmt
  import opened Gf2
  import PcapSource

  const U32: nat := 0x1_0000_0000

  /** What the headers take from the configuration and the format. */
  datatype Plan = Plan(frameBytes: nat, ssrc: nat, rtpStep: nat, videoTicks: nat, header: HbrmtHeader) {
    predicate Ok() { frameBytes > 0 && ssrc < U32 && header.InRange() && header.cf != 0 }
    function PerFrame(): nat { (frameBytes + PAYLOAD_BYTES - 1) / PAYLOAD_BYTES }
  }

  lemma PerFrameIs(p: Plan)
    requires p.Ok()
    ensures p.PerFrame() >= 1 && (p.PerFrame() - 1) * PAYLOAD_BYTES < p.frameBytes <= p.PerFrame() * PAYLOAD_BYTES
  {}

  function Zeros(n: nat): (r: seq<Byte>)
    ensures |r| == n
  {
    seq(n, i => 0)
  }

  /** Chunk `i` of a frame, the last one zero-padded. */
  function Chunk(frame: seq<Byte>, i: nat): (r: seq<Byte>)
    requires i * PAYLOAD_BYTES <= |frame|
    ensures |r| == PAYLOAD_BYTES
  {
    var within := i * PAYLOAD_BYTES;
    var rest := frame[within..];
    if |rest| >= PAYLOAD_BYTES then rest[..PAYLOAD_BYTES] else rest + Zeros(PAYLOAD_BYTES - |rest|)
  }

  function RtpOf(p: Plan, pos: nat, frame: nat, last: bool): (h: RtpHeader)
    requires p.Ok()
    ensures h.InRange() && h.version == 2 && h.csrcCount == 0
  {
    RtpHeader(2, false, false, 0, last, 98, pos % 0x10000, frame * p.rtpStep % U32, p.ssrc)
  }

  function HbrmtOf(p: Plan, frame: nat): (h: HbrmtHeader)
    requires p.Ok()
    ensures h.InRange() && h.cf != 0
  {
    p.header.(frCount := frame % 256, videoTimestamp := frame * p.videoTicks % U32)
  }

  function DatagramOf(p: Plan, pos: nat, frame: seq<Byte>, index: nat, i: nat): seq<Byte>
    requires p.Ok() && |frame| == p.frameBytes && i < p.PerFrame()
  {
    PerFrameIs(p);
    Build(RtpOf(p, pos, index, i + 1 == p.PerFrame()), HbrmtOf(p, index), Chunk(frame, i))
  }

  /** What a receiver reads of a datagram: its place in the stream, the last of its frame marked,
    * the frame's time in both headers and its number, the format's codes, and 1376 bytes of the
    * frame, or zeros past its end. */
  lemma {:induction false} DatagramSays(p: Plan, pos: nat, frame: seq<Byte>, index: nat, i: nat, k: nat)
    requires p.Ok() && |frame| == p.frameBytes && i < p.PerFrame() && k < PAYLOAD_BYTES
    ensures var d := Hbrmt.Parse(DatagramOf(p, pos, frame, index, i));
            && d.Some? && |d.value.payload| == 1376
            && d.value.rtp.sequence == pos % 0x10000 && d.value.rtp.timestamp == index * p.rtpStep % 0x1_0000_0000
            && (d.value.rtp.marker <==> (i + 1) * 1376 >= |frame|) && d.value.rtp.payloadType == 98
            && d.value.rtp.ssrc == p.ssrc
            && d.value.hbrmt.frCount == index % 256 && d.value.hbrmt.videoTimestamp == index * p.videoTicks % 0x1_0000_0000
            && d.value.hbrmt.(frCount := 0, videoTimestamp := 0) == p.header.(frCount := 0, videoTimestamp := 0)
            && d.value.payload[k] == if i * 1376 + k < |frame| then frame[i * 1376 + k] else 0
  {
    PerFrameIs(p);
    hide Hbrmt.Parse, Hbrmt.Build;
    ParseBuild(RtpOf(p, pos, index, i + 1 == p.PerFrame()), HbrmtOf(p, index), Chunk(frame, i));
    LastChunk(p, i);
  }

  lemma LastChunk(p: Plan, i: nat)
    requires p.Ok() && i < p.PerFrame()
    ensures i * PAYLOAD_BYTES < p.frameBytes && (i + 1 == p.PerFrame() <==> (i + 1) * PAYLOAD_BYTES >= p.frameBytes)
  {
    PerFrameIs(p);
  }

  ghost predicate Sized(p: Plan, frames: seq<seq<Byte>>) {
    forall k :: 0 <= k < |frames| ==> |frames[k]| == p.frameBytes
  }

  /** `i` chunks into frame `n`; the end of the stream is the start of a frame past the last. */
  ghost predicate Place(p: Plan, frames: seq<seq<Byte>>, n: nat, i: nat) {
    p.Ok() && Sized(p, frames) && n <= |frames| && i <= p.PerFrame() && (i > 0 ==> n < |frames|)
  }

  /** The datagrams up to a place in the stream. */
  ghost function Wire(p: Plan, frames: seq<seq<Byte>>, n: nat, i: nat): (r: seq<seq<Byte>>)
    requires Place(p, frames, n, i)
    ensures |r| >= i && (n > 0 || i > 0 ==> |r| > 0)
    decreases n, i
  {
    if i > 0 then
      var front := Wire(p, frames, n, i - 1);
      front + [DatagramOf(p, |front|, frames[n], n, i - 1)]
    else if n > 0 then Wire(p, frames, n - 1, p.PerFrame())
    else []
  }

  function Sum(ns: seq<nat>): nat {
    if ns == [] then 0 else Sum(ns[..|ns| - 1]) + ns[|ns| - 1]
  }

  lemma {:induction false} SumGrows(ns: seq<nat>, k: nat)
    requires k < |ns|
    ensures Sum(ns[..k]) + ns[k] == Sum(ns[..k + 1]) <= Sum(ns)
    decreases |ns|
  {
    assert ns[..k + 1][..k] == ns[..k];
    if k + 1 < |ns| {
      SumGrows(ns[..|ns| - 1], k);
      assert ns[..|ns| - 1][..k] == ns[..k] && ns[..|ns| - 1][..k + 1] == ns[..k + 1];
    } else {
      assert ns[..k + 1] == ns;
    }
  }

  /** The transmit loop's packetisation, batch by batch as the pacer gives credit: however
    * the credit comes, the batches run together are the stream. */
  method PacketiseAll(p: Plan, frames: seq<seq<Byte>>, credits: seq<nat>) returns (batches: seq<seq<seq<Byte>>>)
    requires p.Ok() && Sized(p, frames) && Sum(credits) == |frames| * p.PerFrame()
    ensures Flat(batches) == Wire(p, frames, |frames|, 0)
    ensures |batches| == |credits| && forall k :: 0 <= k < |credits| ==> |batches[k]| == credits[k]
  {
    hide Wire, DatagramOf, Sized, Plan.PerFrame, Sum, Flat;
    PerFrameIs(p);
    NothingYet(credits);
    WireStarts(p, frames);
    var streamPos: nat, seq16: nat := 0, 0;
    ghost var n: nat, i: nat := 0, 0;
    batches := [];
    var k := 0;
    while k < |credits|
      invariant k == |batches| <= |credits| && forall x :: 0 <= x < k ==> |batches[x]| == credits[x]
      invariant streamPos == Sum(credits[..k]) && seq16 == streamPos % 0x10000
      invariant n <= |frames| && i < p.PerFrame() && (n == |frames| ==> i == 0) && streamPos == n * p.PerFrame() + i
      invariant Flat(batches) == Wire(p, frames, n, i) && |Wire(p, frames, n, i)| == streamPos
    {
      SumGrows(credits, k);
      var batch;
      batch, seq16, n, i := BuildBatch(p, frames, streamPos, seq16, credits[k], n, i);
      FlatMore(batches, batch);
      batches, streamPos, k := batches + [batch], streamPos + credits[k], k + 1;
    }
    assert credits[..k] == credits;
    if n < |frames| { Apart(n, |frames|, p.PerFrame()); }
  }

  lemma {:induction false} FlatMore<T>(batches: seq<seq<T>>, batch: seq<T>)
    ensures Flat(batches + [batch]) == Flat(batches) + batch
  {
    assert (batches + [batch])[..|batches|] == batches;
  }

  lemma {:induction false} NothingYet(credits: seq<nat>)
    ensures Sum(credits[..0]) == 0 && Flat<seq<Byte>>([]) == []
  {}

  /** One batch: one position in the stream after another. */
  method BuildBatch(p: Plan, frames: seq<seq<Byte>>, from: nat, fromSeq: nat, credit: nat, ghost n0: nat, ghost i0: nat)
      returns (batch: seq<seq<Byte>>, seq16: nat, ghost n: nat, ghost i: nat)
    requires p.Ok() && Sized(p, frames) && n0 <= |frames| && i0 < p.PerFrame() && (n0 == |frames| ==> i0 == 0)
    requires from == n0 * p.PerFrame() + i0 == |Wire(p, frames, n0, i0)| && fromSeq == from % 0x10000
    requires from + credit <= |frames| * p.PerFrame()
    ensures |batch| == credit && seq16 == (from + credit) % 0x10000
    ensures n <= |frames| && i < p.PerFrame() && (n == |frames| ==> i == 0) && from + credit == n * p.PerFrame() + i
    ensures Wire(p, frames, n, i) == Wire(p, frames, n0, i0) + batch
  {
    hide Wire, DatagramOf, RtpOf, HbrmtOf, Chunk, Sized, Plan.PerFrame;
    PerFrameIs(p);
    var perFrame := p.PerFrame();
    var streamPos := from;
    batch, seq16, n, i := [], fromSeq, n0, i0;
    while |batch| < credit
      invariant |batch| <= credit && streamPos == from + |batch| && seq16 == streamPos % 0x10000
      invariant n <= |frames| && i < perFrame == p.PerFrame() && (n == |frames| ==> i == 0)
      invariant streamPos == n * perFrame + i
      invariant Wire(p, frames, n, i) == Wire(p, frames, n0, i0) + batch
    {
      DivModUnique(streamPos, n, i, perFrame);
      var frameIndex, idxInFrame := streamPos / perFrame, streamPos % perFrame;
      WireMore(p, frames, n, i);
      var datagram := BuildNext(p, frames[frameIndex], streamPos, frameIndex, idxInFrame, perFrame, seq16);
      seq16 := (seq16 + 1) % 0x10000;
      batch := batch + [datagram];
      streamPos := streamPos + 1;
      Successor(n, i, perFrame);
      if i + 1 == perFrame { n, i := n + 1, 0; } else { i := i + 1; }
    }
  }

  /** The datagram at one position, under fresh headers. */
  method BuildNext(p: Plan, frame: seq<Byte>, streamPos: nat, frameIndex: nat, idxInFrame: nat, perFrame: nat,
                   seq16: nat)
      returns (datagram: seq<Byte>)
    requires p.Ok() && |frame| == p.frameBytes && idxInFrame < perFrame == p.PerFrame()
    requires seq16 == streamPos % 0x10000
    ensures datagram == DatagramOf(p, streamPos, frame, frameIndex, idxInFrame)
  {
    var rtp := RtpHeader(2, false, false, 0, idxInFrame + 1 == perFrame, 98, seq16,
                         frameIndex * p.rtpStep % U32, p.ssrc);
    var hb := p.header.(frCount := frameIndex % 256, videoTimestamp := frameIndex * p.videoTicks % U32);
    ChunkFits(p, frame, idxInFrame);
    hide Plan.PerFrame, Build, Chunk;
    var within := idxInFrame * PAYLOAD_BYTES;
    var take := if p.frameBytes - within < PAYLOAD_BYTES then p.frameBytes - within else PAYLOAD_BYTES;
    var chunk := frame[within..within + take] + Zeros(PAYLOAD_BYTES - take);
    DatagramIs(p, streamPos, frame, frameIndex, idxInFrame, rtp, hb, chunk);
    datagram := Build(rtp, hb, chunk);
  }

  lemma Successor(n: nat, i: nat, d: nat)
    ensures (n + 1) * d == n * d + d
    ensures ((n * d + i) % 0x10000 + 1) % 0x10000 == (n * d + i + 1) % 0x10000
  {}

  lemma {:induction false} WireStarts(p: Plan, frames: seq<seq<Byte>>)
    requires p.Ok() && Sized(p, frames)
    ensures Wire(p, frames, 0, 0) == []
  {}

  lemma {:induction false} WireMore(p: Plan, frames: seq<seq<Byte>>, n: nat, i: nat)
    requires p.Ok() && Sized(p, frames) && n < |frames| && i < p.PerFrame()
    ensures |frames[n]| == p.frameBytes
    ensures Wire(p, frames, n, i + 1)
            == Wire(p, frames, n, i) + [DatagramOf(p, |Wire(p, frames, n, i)|, frames[n], n, i)]
    ensures i + 1 == p.PerFrame() ==> Wire(p, frames, n + 1, 0) == Wire(p, frames, n, i + 1)
  {
    hide DatagramOf;
  }

  lemma {:induction false} ChunkFits(p: Plan, frame: seq<Byte>, i: nat)
    requires p.Ok() && |frame| == p.frameBytes && i < p.PerFrame()
    ensures i * PAYLOAD_BYTES < |frame|
    ensures var w := i * PAYLOAD_BYTES;
            var take := if |frame| - w < PAYLOAD_BYTES then |frame| - w else PAYLOAD_BYTES;
            Chunk(frame, i) == frame[w..w + take] + Zeros(PAYLOAD_BYTES - take)
  {
    PerFrameIs(p);
  }

  lemma {:induction false} DatagramIs(p: Plan, pos: nat, frame: seq<Byte>, index: nat, i: nat,
                   rtp: RtpHeader, hb: HbrmtHeader, chunk: seq<Byte>)
    requires p.Ok() && |frame| == p.frameBytes && i < p.PerFrame() && i * PAYLOAD_BYTES <= |frame|
    requires rtp == RtpHeader(2, false, false, 0, i + 1 == p.PerFrame(), 98, pos % 0x10000,
                              index * p.rtpStep % U32, p.ssrc)
    requires hb == p.header.(frCount := index % 256, videoTimestamp := index * p.videoTicks % U32)
    requires chunk == Chunk(frame, i)
    ensures rtp.InRange() && hb.InRange()
    ensures Build(rtp, hb, chunk) == DatagramOf(p, pos, frame, index, i)
  {
    hide Chunk, Build, Plan.PerFrame;
    assert rtp == RtpOf(p, pos, index, i + 1 == p.PerFrame());
    assert hb == HbrmtOf(p, index);
  }

  // ---------------------------------------------------------------------------
  // What a receiver parses
  // ---------------------------------------------------------------------------

  /** The datagrams of `Wire`, as the capture reader understands them. */
  ghost function Sent(p: Plan, dst: nat, frames: seq<seq<Byte>>, n: nat, i: nat): (r: seq<Media>)
    requires Place(p, frames, n, i)
    ensures |r| >= i && (n > 0 || i > 0 ==> |r| > 0)
    decreases n, i
  {
    if i > 0 then
      var front := Sent(p, dst, frames, n, i - 1);
      PerFrameIs(p);
      front + [Media(dst, |front| % 0x10000, i == p.PerFrame(), Chunk(frames[n], i - 1))]
    else if n > 0 then Sent(p, dst, frames, n - 1, p.PerFrame())
    else []
  }

  /** The place before, and the datagram between the two. */
  lemma {:induction false} StepBack(p: Plan, dst: nat, frames: seq<seq<Byte>>, n: nat, i: nat) returns (m: nat, j: nat)
    requires Place(p, frames, n, i) && i < p.PerFrame() && (n > 0 || i > 0)
    ensures Place(p, frames, m, j) && j < p.PerFrame() && m < |frames| && |frames[m]| == p.frameBytes
    ensures j * PAYLOAD_BYTES <= |frames[m]|
    ensures if i > 0 then m == n && j + 1 == i else m + 1 == n && j + 1 == p.PerFrame()
    ensures Sent(p, dst, frames, n, i)
            == Sent(p, dst, frames, m, j)
               + [Media(dst, |Sent(p, dst, frames, m, j)| % 0x10000, j + 1 == p.PerFrame(), Chunk(frames[m], j))]
  {
    PerFrameIs(p);
    hide Plan.PerFrame, Chunk;
    m, j := if i > 0 then n else n - 1, if i > 0 then i - 1 else p.PerFrame() - 1;
    assert Sent(p, dst, frames, n, i) == Sent(p, dst, frames, m, j + 1);
  }

  lemma {:induction false} WireBack(p: Plan, frames: seq<seq<Byte>>, n: nat, i: nat, m: nat, j: nat)
    requires Place(p, frames, n, i) && i < p.PerFrame() && Place(p, frames, m, j) && j < p.PerFrame() && m < |frames|
    requires if i > 0 then m == n && j + 1 == i else m + 1 == n && j + 1 == p.PerFrame()
    ensures |frames[m]| == p.frameBytes
    ensures Wire(p, frames, n, i)
            == Wire(p, frames, m, j) + [DatagramOf(p, |Wire(p, frames, m, j)|, frames[m], m, j)]
  {
    hide Plan.PerFrame, DatagramOf;
    assert Wire(p, frames, n, i) == Wire(p, frames, m, j + 1);
  }

  lemma {:induction false} WireDecodes(p: Plan, dst: PcapSource.Address, frames: seq<seq<Byte>>, n: nat, i: nat)
    requires Place(p, frames, n, i) && i < p.PerFrame()
    ensures AllDecode(dst, Wire(p, frames, n, i), Sent(p, dst, frames, n, i))
    decreases n, i
  {
    if n > 0 || i > 0 {
      var m, j := StepBack(p, dst, frames, n, i);
      WireBack(p, frames, n, i, m, j);
      WireDecodes(p, dst, frames, m, j);
      DatagramDecodes(p, dst, |Wire(p, frames, m, j)|, frames[m], m, j);
      hide Wire, Sent, DatagramOf, Chunk, DecodesTo, Plan.PerFrame, Place, AllDecode;
      AllDecodeMore(dst, Wire(p, frames, m, j), Sent(p, dst, frames, m, j),
                    DatagramOf(p, |Wire(p, frames, m, j)|, frames[m], m, j));
    }
  }

  lemma {:induction false} AllDecodeMore(dst: PcapSource.Address, datagrams: seq<seq<Byte>>, ms: seq<Media>, d: seq<Byte>)
    requires AllDecode(dst, datagrams, ms)
    ensures |datagrams| == |ms|
    ensures forall m :: DecodesTo(dst, d, m, |ms|) ==> AllDecode(dst, datagrams + [d], ms + [m])
  {
    hide DecodesTo;
  }

  ghost predicate AllDecode(dst: PcapSource.Address, datagrams: seq<seq<Byte>>, ms: seq<Media>) {
    |datagrams| == |ms| && forall k :: 0 <= k < |ms| ==> DecodesTo(dst, datagrams[k], ms[k], k)
  }

  predicate DecodesTo(dst: PcapSource.Address, datagram: seq<Byte>, m: Media, k: nat) {
    PcapSource.Decode(PcapSource.Udp(dst, datagram)) == Some(m) && m.dst == dst && m.seq16 == k % 0x10000
  }

  lemma {:induction false} DatagramDecodes(p: Plan, dst: PcapSource.Address, pos: nat, frame: seq<Byte>, index: nat, i: nat)
    requires p.Ok() && |frame| == p.frameBytes && i < p.PerFrame()
    ensures i * PAYLOAD_BYTES <= |frame|
    ensures DecodesTo(dst, DatagramOf(p, pos, frame, index, i),
                      Media(dst, pos % 0x10000, i + 1 == p.PerFrame(), Chunk(frame, i)), pos)
  {
    PerFrameIs(p);
    hide Plan.PerFrame, Chunk, Build, Parse;
    ParseBuild(RtpOf(p, pos, index, i + 1 == p.PerFrame()), HbrmtOf(p, index), Chunk(frame, i));
  }

  // ---------------------------------------------------------------------------
  // Cutting a complete stream
  // ---------------------------------------------------------------------------

  /** The pass met the whole stream, from whichever leg. */
  ghost predicate Bears(v: seq<Taken>, ms: seq<Media>) {
    |v| == |ms| && forall k :: 0 <= k < |v| ==> BearsAt(v[k], ms[k])
  }

  predicate BearsAt(t: Taken, m: Media) { t.Data? && t.marker == m.marker && t.payload == m.payload }

  ghost predicate Fits(p: Plan, frames: seq<seq<Byte>>, rules: Rules) {
    && p.Ok() && Sized(p, frames) && rules.frameBytes == p.frameBytes
    && forall k :: 1 <= k < |frames| ==> rules.rasterOk(frames[k])
  }

  /** The chunks of a frame come together as the frame. */
  lemma {:induction false} ChunksJoin(p: Plan, frame: seq<Byte>, i: nat)
    requires p.Ok() && |frame| == p.frameBytes && i < p.PerFrame()
    ensures i * PAYLOAD_BYTES <= |frame|
    ensures i + 1 < p.PerFrame() ==>
              (i + 1) * PAYLOAD_BYTES <= |frame|
              && frame[..i * PAYLOAD_BYTES] + Chunk(frame, i) == frame[..(i + 1) * PAYLOAD_BYTES]
    ensures i + 1 == p.PerFrame() ==>
              var whole := frame[..i * PAYLOAD_BYTES] + Chunk(frame, i);
              |whole| >= |frame| && whole[..|frame|] == frame
  {
    PerFrameIs(p);
  }

  /** In a pass begun somewhere in frame `f`: at a place in the stream every frame after that
    * one and before the place has come out, none was unusable, and the collection holds the
    * chunks so far. */
  ghost predicate CutTo(p: Plan, frames: seq<seq<Byte>>, rules: Rules, f: nat, n: nat, i: nat, v: seq<Taken>)
    requires Fits(p, frames, rules) && Place(p, frames, n, i) && i < p.PerFrame()
  {
    ChunkStarts(p, frames, n, i);
    && Frames(rules, v) == (if n <= f then [] else frames[f + 1..n]) && Bad(rules, v) == 0
    && Collected(v) == Gathered(frames, f, n, i)
  }

  /** Datagram `s` of the stream is one of frame `f`. */
  ghost predicate InFrame(p: Plan, s: nat, f: nat) { f * p.PerFrame() <= s < f * p.PerFrame() + p.PerFrame() }

  lemma {:induction false} SentCount(p: Plan, dst: nat, frames: seq<seq<Byte>>, n: nat, i: nat)
    requires Place(p, frames, n, i) && i < p.PerFrame()
    ensures |Sent(p, dst, frames, n, i)| == n * p.PerFrame() + i
    decreases n, i
  {
    if n > 0 || i > 0 {
      var m, j := StepBack(p, dst, frames, n, i);
      hide Sent, Chunk, Plan.PerFrame;
      SentCount(p, dst, frames, m, j);
      Successor(m, j, p.PerFrame());
    }
  }

  /** Where in the stream a place is, seen from frame `f`. */
  lemma {:induction false} Whereabouts(p: Plan, dst: nat, frames: seq<seq<Byte>>, n: nat, i: nat, s: nat, f: nat)
    requires Place(p, frames, n, i) && i < p.PerFrame() && InFrame(p, s, f)
    ensures |Sent(p, dst, frames, n, i)| == s ==> n == f
    ensures |Sent(p, dst, frames, n, i)| >= s ==> n >= f
  {
    SentCount(p, dst, frames, n, i);
    hide Sent, Plan.PerFrame;
    if n < f { Apart(n, f, p.PerFrame()); }
    if f < n { Apart(f, n, p.PerFrame()); }
  }

  lemma {:induction false} ChunkStarts(p: Plan, frames: seq<seq<Byte>>, n: nat, i: nat)
    requires Place(p, frames, n, i) && i < p.PerFrame()
    ensures i > 0 ==> i * PAYLOAD_BYTES <= |frames[n]|
  {
    PerFrameIs(p);
  }

  lemma {:induction false} CutStream(p: Plan, dst: nat, frames: seq<seq<Byte>>, rules: Rules, s: nat, f: nat,
                                     n: nat, i: nat, v: seq<Taken>)
    requires Fits(p, frames, rules) && Place(p, frames, n, i) && i < p.PerFrame()
    requires InFrame(p, s, f) && s <= |Sent(p, dst, frames, n, i)|
    requires Bears(v, Sent(p, dst, frames, n, i)[s..])
    ensures CutTo(p, frames, rules, f, n, i, v)
    decreases n, i
  {
    hide Sent, Plan.PerFrame, Chunk, Fits, CutTo, Bears, InFrame;
    Whereabouts(p, dst, frames, n, i, s, f);
    BearsAsMany(v, Sent(p, dst, frames, n, i)[s..]);
    if v == [] {
      CutNone(p, frames, rules, f, n, i);
    } else {
      assert n > 0 || i > 0 by { if n == 0 && i == 0 { SentNone(p, dst, frames); } }
      var m, j := StepBack(p, dst, frames, n, i);
      var front, t := v[..|v| - 1], v[|v| - 1];
      var ms, before := Sent(p, dst, frames, n, i), Sent(p, dst, frames, m, j);
      assert ms[s..] == before[s..] + [ms[|before|]];
      BearsBack(before[s..], v, ms[|before|]);
      Whereabouts(p, dst, frames, m, j, s, f);
      CutStream(p, dst, frames, rules, s, f, m, j, front);
      CutStep(p, frames, rules, f, m, j, front, t);
      assert front + [t] == v;
    }
  }

  lemma {:induction false} CutNone(p: Plan, frames: seq<seq<Byte>>, rules: Rules, f: nat, n: nat, i: nat)
    requires Fits(p, frames, rules) && Place(p, frames, n, i) && i < p.PerFrame() && n <= f
    ensures CutTo(p, frames, rules, f, n, i, [])
  {}

  lemma {:induction false} BearsAsMany(v: seq<Taken>, ms: seq<Media>)
    requires Bears(v, ms)
    ensures |v| == |ms|
  {}

  lemma {:induction false} CutStep(p: Plan, frames: seq<seq<Byte>>, rules: Rules, f: nat, m: nat, j: nat,
                                   front: seq<Taken>, t: Taken)
    requires Fits(p, frames, rules) && Place(p, frames, m, j) && j < p.PerFrame() && f <= m < |frames|
    requires CutTo(p, frames, rules, f, m, j, front)
    requires j * PAYLOAD_BYTES <= |frames[m]|
    requires t.Data? && t.marker == (j + 1 == p.PerFrame()) && t.payload == Chunk(frames[m], j)
    ensures Place(p, frames, m + 1, 0)
    ensures if t.marker then CutTo(p, frames, rules, f, m + 1, 0, front + [t])
            else Place(p, frames, m, j + 1) && CutTo(p, frames, rules, f, m, j + 1, front + [t])
  {
    PerFrameIs(p);
    CutOne(p, frames, rules, f, m, j, front, t);
    hide Chunk, Plan.PerFrame, Frames, Bad, Collected;
    if m > f { assert frames[f + 1..m + 1] == frames[f + 1..m] + [frames[m]]; }
  }

  /** What the collection holds at a place in the stream. */
  function Gathered(frames: seq<seq<Byte>>, f: nat, n: nat, i: nat): Option<seq<Byte>>
    requires i > 0 ==> n < |frames| && i * PAYLOAD_BYTES <= |frames[n]|
  {
    if n <= f then None else if i == 0 then Some([]) else Some(frames[n][..i * PAYLOAD_BYTES])
  }

  lemma {:induction false} BearsBack(ms: seq<Media>, v: seq<Taken>, m: Media)
    requires Bears(v, ms + [m])
    ensures |v| == |ms| + 1 && Bears(v[..|v| - 1], ms) && BearsAt(v[|v| - 1], m)
  {
    hide BearsAt;
    var all := ms + [m];
    assert BearsAt(v[|v| - 1], all[|v| - 1]);
    forall k | 0 <= k < |ms| ensures BearsAt(v[k], ms[k]) { assert BearsAt(v[k], all[k]); }
  }

  /** One more datagram of a complete stream. */
  lemma {:induction false} CutOne(p: Plan, frames: seq<seq<Byte>>, rules: Rules, f: nat, m: nat, j: nat,
                                  front: seq<Taken>, t: Taken)
    requires Fits(p, frames, rules) && f <= m < |frames| && j < p.PerFrame() && j * PAYLOAD_BYTES <= |frames[m]|
    requires Collected(front) == if m <= f then None else if j == 0 then Some([]) else Some(frames[m][..j * PAYLOAD_BYTES])
    requires t.Data? && t.marker == (j + 1 == p.PerFrame()) && t.payload == Chunk(frames[m], j)
    ensures Frames(rules, front + [t]) == Frames(rules, front) + if m > f && t.marker then [frames[m]] else []
    ensures Bad(rules, front) == 0 ==> Bad(rules, front + [t]) == 0
    ensures !t.marker ==> (j + 1) * PAYLOAD_BYTES <= |frames[m]|
    ensures Collected(front + [t]) == if t.marker then Some([]) else Gathered(frames, f, m, j + 1)
  {
    assert (front + [t])[..|front|] == front;
    ChunksJoin(p, frames[m], j);
    hide Chunk, Plan.PerFrame;
  }

  // ---------------------------------------------------------------------------
  // Two lossy legs
  // ---------------------------------------------------------------------------

  /** Which datagrams of a stream of `total` a leg kept: in order, with gaps the window
    * and the 16-bit sequence can bridge. */
  ghost predicate Kept(idx: seq<nat>, total: nat, window: nat) {
    && (forall k :: 0 <= k < |idx| ==> idx[k] < total)
    && (forall k :: 0 < k < |idx| ==> idx[k - 1] < idx[k] < idx[k - 1] + window && idx[k] < idx[k - 1] + 0x8000)
  }

  /** A capture of the datagrams a leg kept. */
  function Capture(wire: seq<seq<Byte>>, dst: PcapSource.Address, idx: seq<nat>): (r: seq<PcapSource.Record>)
    requires forall k :: 0 <= k < |idx| ==> idx[k] < |wire|
    ensures |r| == |idx|
  {
    seq(|idx|, k requires 0 <= k < |idx| => PcapSource.Udp(dst, wire[idx[k]]))
  }

  function Choose(ms: seq<Media>, idx: seq<nat>): (r: seq<Media>)
    requires forall k :: 0 <= k < |idx| ==> idx[k] < |ms|
    ensures |r| == |idx|
  {
    seq(|idx|, k requires 0 <= k < |idx| => ms[idx[k]])
  }

  lemma {:induction false} AllAccepted(file: seq<PcapSource.Record>, dst: nat, locked: nat, ms: seq<Media>)
    requires |file| == |ms| && dst > 0 && (locked == 0 || locked == dst)
    requires forall k :: 0 <= k < |ms| ==> PcapSource.Decode(file[k]) == Some(ms[k]) && ms[k].dst == dst
    ensures PcapSource.Accepted(file, locked) == ms
  {
    hide PcapSource.Decode;
    if file != [] {
      assert PcapSource.Decode(file[0]) == Some(ms[0]);
      AllAccepted(file[1..], dst, dst, ms[1..]);
      assert ms == [ms[0]] + ms[1..];
    }
  }

  lemma {:induction false} CaptureAccepted(wire: seq<seq<Byte>>, dst: PcapSource.Address, idx: seq<nat>, ms: seq<Media>)
    requires AllDecode(dst, wire, ms) && forall k :: 0 <= k < |idx| ==> idx[k] < |wire|
    ensures PcapSource.Accepted(Capture(wire, dst, idx), 0) == Choose(ms, idx)
    ensures forall k :: 0 <= k < |idx| ==> Choose(ms, idx)[k].seq16 == idx[k] % 0x10000
  {
    hide PcapSource.Decode, PcapSource.Accepted;
    forall k | 0 <= k < |idx|
      ensures DecodesTo(dst, wire[idx[k]], Choose(ms, idx)[k], idx[k])
    {}
    AllAccepted(Capture(wire, dst, idx), dst, 0, Choose(ms, idx));
  }

  /** A leg that can be followed and carries exactly the chosen datagrams. */
  ghost predicate LegIs(us: seq<Entry>, ms: seq<Media>, idx: seq<nat>) {
    && |us| == |idx|
    && forall k :: 0 <= k < |idx| ==> idx[k] < |ms| && us[k] == Entry(idx[k], ms[idx[k]].marker, ms[idx[k]].payload)
  }

  /** The numbers of a leg whose first datagrams, `z` of the stream, are not counted. */
  function Lowered(idx: seq<nat>, z: nat): (r: seq<nat>)
    requires forall k :: 0 <= k < |idx| ==> z <= idx[k]
    ensures |r| == |idx|
  {
    seq(|idx|, k requires 0 <= k < |idx| => idx[k] - z)
  }

  /** What a leg kept begins no earlier than a place in the stream where the 16-bit sequence
    * was zero. */
  ghost predicate From(idx: seq<nat>, z: nat) {
    z % 0x10000 == 0 && forall k :: 0 <= k < |idx| ==> z <= idx[k]
  }

  /** A leg's numbers are its places in the stream, counted from that place. */
  lemma {:induction false} LegOfCapture(wire: seq<seq<Byte>>, dst: PcapSource.Address, idx: seq<nat>, ms: seq<Media>,
                     anchor: Option<nat>, window: nat, z: nat)
    requires AllDecode(dst, wire, ms) && Kept(idx, |wire|, window) && window > 0 && |wire| <= U64
    requires From(idx, z) && z <= |ms| && (idx != [] ==> Anchors(anchor, idx[0] - z))
    ensures var us := Numbered(PcapSource.Accepted(Capture(wire, dst, idx), 0), anchor);
            Followable(us, window) && LegIs(us, ms[z..], Lowered(idx, z))
  {
    hide AllDecode, PcapSource.Accepted, Numbered, Followable, Carries, Anchors, Capture, Kept, LegIs, Lowered, Choose;
    SameCount(wire, dst, ms);
    KeptInside(idx, |wire|, window);
    CaptureAccepted(wire, dst, idx, ms);
    var chosen := Choose(ms, idx);
    KeptCarries(idx, |wire|, window, chosen, z);
    LoweredSteps(idx, z, window);
    CaptureIsFollowable(chosen, anchor, Lowered(idx, z), window);
    ChosenLeg(Numbered(chosen, anchor), ms, idx, z);
  }

  lemma {:induction false} LoweredSteps(idx: seq<nat>, z: nat, window: nat)
    requires From(idx, z) && forall k :: 0 < k < |idx| ==> idx[k] < idx[k - 1] + window
    ensures idx != [] ==> Lowered(idx, z)[0] == idx[0] - z
    ensures forall k :: 0 < k < |idx| ==> Lowered(idx, z)[k] < Lowered(idx, z)[k - 1] + window
  {}

  lemma {:induction false} ChosenLeg(us: seq<Entry>, ms: seq<Media>, idx: seq<nat>, z: nat)
    requires From(idx, z) && z <= |ms| && |us| == |idx| && forall k :: 0 <= k < |idx| ==> idx[k] < |ms|
    requires forall k :: 0 <= k < |us| ==>
               us[k] == Entry(Lowered(idx, z)[k], Choose(ms, idx)[k].marker, Choose(ms, idx)[k].payload)
    ensures LegIs(us, ms[z..], Lowered(idx, z))
  {}

  lemma {:induction false} KeptInside(idx: seq<nat>, total: nat, window: nat)
    requires Kept(idx, total, window)
    ensures forall k :: 0 <= k < |idx| ==> idx[k] < total
    ensures forall k :: 0 < k < |idx| ==> idx[k - 1] < idx[k] < idx[k - 1] + window
  {}

  lemma {:induction false} KeptCarries(idx: seq<nat>, total: nat, window: nat, ms: seq<Media>, z: nat)
    requires Kept(idx, total, window) && total <= U64 && |ms| == |idx| && From(idx, z)
    requires forall k :: 0 <= k < |idx| ==> ms[k].seq16 == idx[k] % 0x10000
    ensures Carries(ms, Lowered(idx, z))
  {
    forall k | 0 <= k < |idx| ensures idx[k] % 0x10000 == Lowered(idx, z)[k] % 0x10000 {
      SameRest(idx[k], z);
    }
  }

  lemma SameRest(n: nat, z: nat)
    requires z <= n && z % 0x10000 == 0
    ensures n % 0x10000 == (n - z) % 0x10000
  {}

  /** What a leg carries under a number it kept, and under one it lost. */
  lemma {:induction false} LegAt(us: seq<Entry>, ms: seq<Media>, idx: seq<nat>, c: nat)
    requires LegIs(us, ms, idx)
    ensures c in idx ==> At(us, c).Some?
    ensures At(us, c).Some? ==> c < |ms| && At(us, c).value == Entry(c, ms[c].marker, ms[c].payload)
  {
    AtFinds(us, c);
    if c in idx {
      var k :| 0 <= k < |idx| && idx[k] == c;
      assert us[k].number == c;
    }
  }

  /** From number `s` on, what one leg lost the other kept. */
  ghost predicate Covered(ia: seq<nat>, ib: seq<nat>, s: nat, total: nat) {
    forall c :: s <= c < total ==> c in ia || c in ib
  }

  lemma {:induction false} PickIs(ua: seq<Entry>, ub: seq<Entry>, ms: seq<Media>, msB: seq<Media>, ia: seq<nat>, ib: seq<nat>,
               window: nat, c: nat)
    requires window > 0 && Followable(ua, window) && Followable(ub, window)
    requires LegIs(ua, ms, ia) && LegIs(ub, msB, ib) && c < |ms| == |msB| && (c in ia || c in ib)
    requires msB[c].marker == ms[c].marker && msB[c].payload == ms[c].payload
    ensures BearsAt(Pick(ua, ub, window, c), ms[c])
  {
    LegAt(ua, ms, ia, c);
    LegAt(ub, msB, ib, c);
    hide LegIs, Pick, Followable;
    MergeExact(ua, ub, window, c);
  }

  ghost predicate SameMedia(ms: seq<Media>, msB: seq<Media>) {
    |ms| == |msB| && forall k :: 0 <= k < |ms| ==> msB[k].marker == ms[k].marker && msB[k].payload == ms[k].payload
  }

  lemma {:induction false} SentSame(p: Plan, dst: nat, dstB: nat, frames: seq<seq<Byte>>, n: nat, i: nat)
    requires Place(p, frames, n, i) && i < p.PerFrame()
    ensures SameMedia(Sent(p, dst, frames, n, i), Sent(p, dstB, frames, n, i))
    decreases n, i
  {
    if n > 0 || i > 0 {
      var m, j := StepBack(p, dst, frames, n, i);
      var m', j' := StepBack(p, dstB, frames, n, i);
      hide Sent, Chunk, Plan.PerFrame, SameMedia, Place;
      SentSame(p, dst, dstB, frames, m, j);
      var a, b := Sent(p, dst, frames, m, j), Sent(p, dstB, frames, m, j);
      SameMediaMore(a, b, Sent(p, dst, frames, n, i)[|a|], Sent(p, dstB, frames, n, i)[|b|]);
    } else {
      SentNone(p, dst, frames);
      SentNone(p, dstB, frames);
    }
  }

  lemma {:induction false} SameMediaMore(ms: seq<Media>, msB: seq<Media>, m: Media, mB: Media)
    requires SameMedia(ms, msB) && m.marker == mB.marker && m.payload == mB.payload
    ensures SameMedia(ms + [m], msB + [mB])
  {}

  lemma {:induction false} VisitedBears(job: Job, ms: seq<Media>, msB: seq<Media>, ia: seq<nat>, ib: seq<nat>, n: nat)
    requires Followable(job.ua, job.window) && Followable(job.ub, job.window)
    requires LegIs(job.ua, ms, ia) && LegIs(job.ub, msB, ib) && SameMedia(ms, msB)
    requires job.first + n <= |ms| && Covered(ia, ib, job.first, |ms|)
    ensures Bears(job.Visited(n), ms[job.first..job.first + n])
  {
    hide Pick, LegIs, Followable, Bears, BearsAt;
    var s := job.first;
    if n > 0 {
      VisitedBears(job, ms, msB, ia, ib, n - 1);
      var c := s + n - 1;
      assert c in ia || c in ib;
      PickIs(job.ua, job.ub, ms, msB, ia, ib, job.window, c);
      BearsMore(job.Visited(n - 1), ms[s..c], Pick(job.ua, job.ub, job.window, c), ms[c]);
      assert ms[s..s + n] == ms[s..c] + [ms[c]];
    } else {
      assert ms[s..s] == [];
      BearsNone();
    }
  }

  lemma BearsNone()
    ensures Bears([], [])
  {}

  lemma {:induction false} BearsMore(v: seq<Taken>, ms: seq<Media>, t: Taken, m: Media)
    requires Bears(v, ms) && BearsAt(t, m)
    ensures Bears(v + [t], ms + [m])
  {
    hide BearsAt;
  }

  /** No stretch of a complete stream has an unusable frame in it. */
  lemma {:induction false} NeverBad(p: Plan, dst: nat, frames: seq<seq<Byte>>, rules: Rules, s: nat, f: nat,
                                    n: nat, i: nat, v: seq<Taken>)
    requires Fits(p, frames, rules) && Place(p, frames, n, i) && i < p.PerFrame() && InFrame(p, s, f)
    requires s + |v| <= |Sent(p, dst, frames, n, i)| && Bears(v, Sent(p, dst, frames, n, i)[s..s + |v|])
    ensures Bad(rules, v) == 0
    decreases n, i
  {
    var ms := Sent(p, dst, frames, n, i);
    if s + |v| == |ms| {
      assert ms[s..s + |v|] == ms[s..];
      CutStream(p, dst, frames, rules, s, f, n, i, v);
    } else {
      assert n > 0 || i > 0 by { if n == 0 && i == 0 { SentNone(p, dst, frames); } }
      var m, j := StepBack(p, dst, frames, n, i);
      hide Wire, Sent, DatagramOf, Chunk, Plan.PerFrame, Bears, Bad, InFrame;
      assert ms[s..s + |v|] == Sent(p, dst, frames, m, j)[s..s + |v|];
      NeverBad(p, dst, frames, rules, s, f, m, j, v);
    }
  }

  lemma {:induction false} SentNone(p: Plan, dst: nat, frames: seq<seq<Byte>>)
    requires Place(p, frames, 0, 0)
    ensures Sent(p, dst, frames, 0, 0) == []
  {}

  lemma {:induction false} LastOfCover(ua: seq<Entry>, ub: seq<Entry>, ms: seq<Media>, msB: seq<Media>,
                                       ia: seq<nat>, ib: seq<nat>)
    requires LegIs(ua, ms, ia) && LegIs(ub, msB, ib) && |ms| == |msB| > 0
    requires |ms| - 1 in ia || |ms| - 1 in ib
    ensures LastNumber(ua, ub) == |ms| - 1
  {
    HighestIsThere(ua);
    HighestIsThere(ub);
    var c := |ms| - 1;
    if c in ia {
      var k :| 0 <= k < |ia| && ia[k] == c;
      assert ua[k].number == c;
    } else {
      var k :| 0 <= k < |ib| && ib[k] == c;
      assert ub[k].number == c;
    }
  }

  /** The place in the stream, at or before place `n`, where the 16-bit sequence was last zero. */
  function ZeroBefore(n: nat): (z: nat)
    ensures z <= n < z + 0x10000 && z % 0x10000 == 0
  {
    n - n % 0x10000
  }

  /** What a pair of captures of a stream has to be: each leg followable, blue begun near red,
    * and every datagram from the first red one on kept by either. */
  ghost predicate Lossy(p: Plan, frames: seq<seq<Byte>>, rules: Rules, ia: seq<nat>, ib: seq<nat>, window: Window)
    requires Place(p, frames, |frames|, 0)
  {
    var total := |Wire(p, frames, |frames|, 0)|;
    && Fits(p, frames, rules) && rules.tolerance >= 1
    && total <= U64 && Kept(ia, total, window) && Kept(ib, total, window)
    && ia != [] && Covered(ia, ib, ia[0], total)
    && (ib != [] ==> Anchors(Some(ia[0]), ib[0]))
  }

  /** Blue does not begin before the place that red's numbers count from. */
  predicate NotBelowZero(ia: seq<nat>, ib: seq<nat>)
    requires ia != []
  {
    ib != [] ==> ZeroBefore(ia[0]) <= ib[0]
  }

  ghost predicate Captured(p: Plan, frames: seq<seq<Byte>>, rules: Rules, ia: seq<nat>, ib: seq<nat>, window: Window)
    requires Place(p, frames, |frames|, 0)
  {
    Lossy(p, frames, rules, ia, ib, window) && NotBelowZero(ia, ib)
  }

  lemma {:induction false} CapturedIsLossy(p: Plan, frames: seq<seq<Byte>>, rules: Rules,
                                           ia: seq<nat>, ib: seq<nat>, window: Window)
    requires Place(p, frames, |frames|, 0) && Captured(p, frames, rules, ia, ib, window)
    ensures Lossy(p, frames, rules, ia, ib, window)
  {}

  lemma {:induction false} CaptureFits(p: Plan, frames: seq<seq<Byte>>, rules: Rules, ia: seq<nat>, ib: seq<nat>, window: Window)
    requires Place(p, frames, |frames|, 0) && Lossy(p, frames, rules, ia, ib, window)
    ensures ia != [] && forall k :: 0 <= k < |ia| ==> ia[k] < |Wire(p, frames, |frames|, 0)|
    ensures forall k :: 0 <= k < |ib| ==> ib[k] < |Wire(p, frames, |frames|, 0)|
  {
    hide Wire, Fits;
  }

  lemma {:induction false} KeptFrom(idx: seq<nat>, total: nat, window: nat, z: nat)
    requires Kept(idx, total, window) && z % 0x10000 == 0 && (idx != [] ==> z <= idx[0])
    ensures From(idx, z)
    decreases |idx|
  {
    if |idx| > 1 {
      var front := idx[..|idx| - 1];
      KeptFrom(front, total, window, z);
      assert forall k :: 0 <= k < |front| ==> front[k] == idx[k];
      assert z <= front[|front| - 1] < idx[|front|];
    }
  }

  /** Counted from `z`, the two legs still make up for each other. */
  lemma {:induction false} CoveredLowered(ia: seq<nat>, ib: seq<nat>, s: nat, total: nat, z: nat)
    requires Covered(ia, ib, s, total) && From(ia, z) && From(ib, z) && z <= s && z <= total
    ensures Covered(Lowered(ia, z), Lowered(ib, z), s - z, total - z)
  {
    forall c | s - z <= c < total - z ensures c in Lowered(ia, z) || c in Lowered(ib, z) {
      if c + z in ia {
        var k :| 0 <= k < |ia| && ia[k] == c + z;
        assert Lowered(ia, z)[k] == c;
      } else {
        var k :| 0 <= k < |ib| && ib[k] == c + z;
        assert Lowered(ib, z)[k] == c;
      }
    }
  }

  /** What is read from two captures of one stream. */
  lemma {:induction false} LegsOfCaptures(wire: seq<seq<Byte>>, dstA: PcapSource.Address, dstB: PcapSource.Address,
                     ia: seq<nat>, ib: seq<nat>, window: Window, rules: Rules, ms: seq<Media>, msB: seq<Media>, z: nat)
    requires AllDecode(dstA, wire, ms) && AllDecode(dstB, wire, msB) && |wire| <= U64 && z <= |ms| == |msB|
    requires Kept(ia, |wire|, window) && Kept(ib, |wire|, window) && From(ia, z) && From(ib, z)
    requires ia != [] && ia[0] < z + 0x10000 && (ib != [] ==> Anchors(Some(ia[0]), ib[0]))
    requires forall k :: 0 <= k < |ia| ==> ia[k] < |wire|
    requires forall k :: 0 <= k < |ib| ==> ib[k] < |wire|
    ensures var job := PcapSource.JobOf(Capture(wire, dstA, ia), Capture(wire, dstB, ib), window, rules);
            && Followable(job.ua, window) && LegIs(job.ua, ms[z..], Lowered(ia, z))
            && Followable(job.ub, window) && LegIs(job.ub, msB[z..], Lowered(ib, z))
            && job.ua != [] && job.first == job.ua[0].number == ia[0] - z && job.rules == rules && job.window == window
  {
    hide AllDecode, LegIs, Followable, Kept, Lowered, Capture, Numbered, PcapSource.Accepted;
    var job := PcapSource.JobOf(Capture(wire, dstA, ia), Capture(wire, dstB, ib), window, rules);
    LegOfCapture(wire, dstA, ia, ms, None, window, z);
    FirstIs(job.ua, ms[z..], ia, z);
    LegOfCapture(wire, dstB, ib, msB, Some(ia[0] - z), window, z);
  }

  /** Packetise, lose what you like on each leg so long as the other has it, and cut:
    * one pass gives back every frame after the one in which red begins, in order, over any
    * number of wraps of the 16-bit sequence, before red begins and after. */
  lemma {:induction false} PacketiseThenCut(p: Plan, frames: seq<seq<Byte>>, rules: Rules, dstA: PcapSource.Address,
                         dstB: PcapSource.Address, ia: seq<nat>, ib: seq<nat>, window: Window, f: nat)
    requires Place(p, frames, |frames|, 0) && Captured(p, frames, rules, ia, ib, window) && InFrame(p, ia[0], f)
    ensures var wire := Wire(p, frames, |frames|, 0);
            var job := PcapSource.JobOf(Capture(wire, dstA, ia), Capture(wire, dstB, ib), window, rules);
            && f < |frames| && job.PassFrames() == frames[f + 1..]
            && job.Length() == |wire| - ia[0] && job.EndsFully(job.Length())
  {
    hide Sent, Wire, Fits, AllDecode, LegIs, Followable, From, Covered, Kept, SameMedia, Lowered, InFrame, Capture;
    hide Job.Length, Job.PassFrames, Job.Ends, Job.EndsFully, Job.Visited, Frames;
    var wire := Wire(p, frames, |frames|, 0);
    CaptureFits(p, frames, rules, ia, ib, window);
    var job := PcapSource.JobOf(Capture(wire, dstA, ia), Capture(wire, dstB, ib), window, rules);
    var ms, msB := Sent(p, dstA, frames, |frames|, 0), Sent(p, dstB, frames, |frames|, 0);
    var z := ZeroBefore(ia[0]);
    PerFrameIs(p);
    WireDecodes(p, dstA, frames, |frames|, 0);
    WireDecodes(p, dstB, frames, |frames|, 0);
    SentSame(p, dstA, dstB, frames, |frames|, 0);
    SameCount(wire, dstA, ms);
    SameCount(wire, dstB, msB);
    KeptFrom(ia, |wire|, window, z);
    KeptFrom(ib, |wire|, window, z);
    LegsOfCaptures(wire, dstA, dstB, ia, ib, window, rules, ms, msB, z);
    CoveredLowered(ia, ib, ia[0], |wire|, z);
    StreamPass(p, frames, rules, dstA, job, ms, msB, Lowered(ia, z), Lowered(ib, z), z, f);
  }

  /** The pass ends with the captures exactly if blue does not begin before that place. */
  lemma {:induction false} EndsWithCaptures(p: Plan, frames: seq<seq<Byte>>, rules: Rules, dstA: PcapSource.Address,
                         dstB: PcapSource.Address, ia: seq<nat>, ib: seq<nat>, window: Window, f: nat)
    requires Place(p, frames, |frames|, 0) && Lossy(p, frames, rules, ia, ib, window) && InFrame(p, ia[0], f)
    requires |Wire(p, frames, |frames|, 0)| < U64
    ensures var wire := Wire(p, frames, |frames|, 0);
            var job := PcapSource.JobOf(Capture(wire, dstA, ia), Capture(wire, dstB, ib), window, rules);
            && (job.EndsFully(|wire| - ia[0]) <==> NotBelowZero(ia, ib))
            && (!NotBelowZero(ia, ib) ==> forall m: nat :: m <= |wire| - ia[0] ==> !job.EndsFully(m))
  {
    hide Sent, Wire, Fits, AllDecode, Kept, InFrame, Capture, Choose, Numbered, PcapSource.Accepted;
    hide Job.Length, Job.PassFrames, Job.Ends, Job.EndsFully;
    var wire := Wire(p, frames, |frames|, 0);
    CaptureFits(p, frames, rules, ia, ib, window);
    var job := PcapSource.JobOf(Capture(wire, dstA, ia), Capture(wire, dstB, ib), window, rules);
    if NotBelowZero(ia, ib) {
      PacketiseThenCut(p, frames, rules, dstA, dstB, ia, ib, window, f);
    } else {
      var z, msB := ZeroBefore(ia[0]), Sent(p, dstB, frames, |frames|, 0);
      WireDecodes(p, dstB, frames, |frames|, 0);
      SameCount(wire, dstB, msB);
      CaptureAccepted(wire, dstB, ib, msB);
      FirstOfJob(p, frames, dstA, dstB, ia, ib, window, rules, z);
      var d := ia[0] - ib[0];
      BelowZeroRest(ia[0], ib[0], z);
      forall m: nat | m <= |wire| - ia[0] ensures !job.EndsFully(m) {
        BlueBelowZeroHasNoFullEnd(job, Choose(msB, ib), d, m);
      }
    }
  }

  lemma BelowZeroRest(a: nat, b: nat, z: nat)
    requires b < z <= a && z % 0x10000 == 0
    ensures a - z < a - b && (b % 0x10000 - (a - z) + (a - b)) % 0x10000 == 0
  {
    assert b % 0x10000 - (a - z) + (a - b) == z - b / 0x10000 * 0x10000;
  }

  lemma {:induction false} FirstOfJob(p: Plan, frames: seq<seq<Byte>>, dstA: PcapSource.Address, dstB: PcapSource.Address,
                         ia: seq<nat>, ib: seq<nat>, window: Window, rules: Rules, z: nat)
    requires Place(p, frames, |frames|, 0) && |Wire(p, frames, |frames|, 0)| <= U64
    requires Kept(ia, |Wire(p, frames, |frames|, 0)|, window) && ia != [] && z == ZeroBefore(ia[0])
    requires forall k :: 0 <= k < |ia| ==> ia[k] < |Wire(p, frames, |frames|, 0)|
    requires forall k :: 0 <= k < |ib| ==> ib[k] < |Wire(p, frames, |frames|, 0)|
    ensures var wire := Wire(p, frames, |frames|, 0);
            var job := PcapSource.JobOf(Capture(wire, dstA, ia), Capture(wire, dstB, ib), window, rules);
            job.first == ia[0] - z && job.ub == Numbered(PcapSource.Accepted(Capture(wire, dstB, ib), 0), Some(job.first))
  {
    hide Sent, Wire, AllDecode, LegIs, Followable, Kept, Lowered, Capture, Numbered, PcapSource.Accepted;
    var wire, ms := Wire(p, frames, |frames|, 0), Sent(p, dstA, frames, |frames|, 0);
    WireDecodes(p, dstA, frames, |frames|, 0);
    SameCount(wire, dstA, ms);
    KeptFrom(ia, |wire|, window, z);
    LegOfCapture(wire, dstA, ia, ms, None, window, z);
    FirstIs(Numbered(PcapSource.Accepted(Capture(wire, dstA, ia), 0), None), ms[z..], ia, z);
  }

  lemma {:induction false} SameCount(wire: seq<seq<Byte>>, dst: PcapSource.Address, ms: seq<Media>)
    requires AllDecode(dst, wire, ms)
    ensures |ms| == |wire|
  {}

  lemma {:induction false} FirstIs(us: seq<Entry>, ms: seq<Media>, idx: seq<nat>, z: nat)
    requires From(idx, z) && idx != [] && LegIs(us, ms, Lowered(idx, z))
    ensures us != [] && us[0].number == idx[0] - z
  {}

  lemma {:induction false} StreamPass(p: Plan, frames: seq<seq<Byte>>, rules: Rules, dst: nat, job: Job,
                   ms: seq<Media>, msB: seq<Media>, ia: seq<nat>, ib: seq<nat>, z: nat, f: nat)
    requires Fits(p, frames, rules) && rules.tolerance >= 1 && Place(p, frames, |frames|, 0)
    requires ms == Sent(p, dst, frames, |frames|, 0) && SameMedia(ms, msB) && z + job.first < |ms|
    requires Followable(job.ua, job.window) && Followable(job.ub, job.window) && job.ua != []
    requires job.first == job.ua[0].number && job.rules == rules && InFrame(p, z + job.first, f)
    requires |msB| == |ms| && LegIs(job.ua, ms[z..], ia) && LegIs(job.ub, msB[z..], ib)
    requires Covered(ia, ib, job.first, |ms| - z)
    ensures f < |frames| && job.PassFrames() == frames[f + 1..]
    ensures job.Length() == |ms| - z - job.first && job.EndsFully(job.Length())
  {
    hide LegIs, Followable, Fits, Sent, Bears, Frames, Bad, Collected, Plan.PerFrame;
    hide Job.Length, Job.Ends, Job.EndsFully, Job.Visited;
    var s, rest := z + job.first, ms[z..];
    PerFrameIs(p);
    SameMediaFrom(ms, msB, z);
    LastOfCover(job.ua, job.ub, rest, msB[z..], ia, ib);
    assert job.Bound() == |ms| - s;
    forall m: nat | m <= job.Bound() ensures Bears(job.Visited(m), ms[s..s + m]) {
      VisitedBears(job, rest, msB[z..], ia, ib, m);
      assert rest[job.first..job.first + m] == ms[s..s + m];
    }
    forall m: nat | m < job.Bound() ensures !job.EndsEarly(m) {
      NeverBad(p, dst, frames, rules, s, f, |frames|, 0, job.Visited(m));
    }
    FullPassVisitsAll(job);
    assert ms[s..s + (|ms| - s)] == ms[s..];
    CutStream(p, dst, frames, rules, s, f, |frames|, 0, job.Visited(|ms| - s));
    Whereabouts(p, dst, frames, |frames|, 0, s, f);
    SentCount(p, dst, frames, |frames|, 0);
    assert f < |frames|;
  }

  lemma {:induction false} SameMediaFrom(ms: seq<Media>, msB: seq<Media>, z: nat)
    requires SameMedia(ms, msB) && z <= |ms|
    ensures |msB| == |ms| && SameMedia(ms[z..], msB[z..])
  {}

  /** Replaying the capture of a replay: the frames sent after the one in
    * which red begins are pushed, over and over for as long as it runs. */
  lemma {:induction false} LoopedReplay(p: Plan, frames: seq<seq<Byte>>, rules: Rules, dstA: PcapSource.Address,
                     dstB: PcapSource.Address, ia: seq<nat>, ib: seq<nat>, window: Window, f: nat,
                     n: nat, books: PcapSource.Books, x: nat)
    requires Place(p, frames, |frames|, 0) && Captured(p, frames, rules, ia, ib, window) && InFrame(p, ia[0], f)
    requires var wire := Wire(p, frames, |frames|, 0);
             var job := PcapSource.JobOf(Capture(wire, dstA, ia), Capture(wire, dstB, ib), window, rules);
             PcapSource.Booked(job, n, books) && PcapSource.NotOver(job, n) && x < |books.pushed|
    ensures f + 1 < |frames| && books.pushed[x] == frames[f + 1 + x % (|frames| - f - 1)]
  {
    hide *;
    var wire := Wire(p, frames, |frames|, 0);
    CapturedIsLossy(p, frames, rules, ia, ib, window);
    CaptureFits(p, frames, rules, ia, ib, window);
    var job := PcapSource.JobOf(Capture(wire, dstA, ia), Capture(wire, dstB, ib), window, rules);
    PacketiseThenCut(p, frames, rules, dstA, dstB, ia, ib, window, f);
    PcapSource.LoopedFrames(job, n, books, x);
  }
}
