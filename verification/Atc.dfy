/** Rewriting ancillary timecode in a packed frame, and repairing what that breaks: the
  * packet checksum, and the line CRC that lies in the following line's header. */
module Atc {
  import opened Wrappers
  import opened SdiFormat
  import opened Timecode
  import Crc
  import Gf2

  // ---------------------------------------------------------------------------
  // Every second word
  // ---------------------------------------------------------------------------

  /** `w` written over every second word from `at` on. */
  function Scatter(v: seq<Word>, at: nat, w: seq<Word>): (r: seq<Word>)
    requires w != [] ==> at + 2 * (|w| - 1) < |v|
    ensures |r| == |v|
  {
    if w == [] then v
    else Scatter(v, at, w[..|w| - 1])[at + 2 * (|w| - 1) := w[|w| - 1]]
  }

  lemma {:induction false} ScatterReads(v: seq<Word>, at: nat, w: seq<Word>, k: nat)
    requires (w != [] ==> at + 2 * (|w| - 1) < |v|) && k < |w|
    ensures Scatter(v, at, w)[at + 2 * k] == w[k]
  {
    if k < |w| - 1 { ScatterReads(v, at, w[..|w| - 1], k); }
  }

  lemma {:induction false} ScatterLeaves(v: seq<Word>, at: nat, w: seq<Word>, i: nat)
    requires (w != [] ==> at + 2 * (|w| - 1) < |v|) && i < |v|
    requires forall k :: 0 <= k < |w| && i == at + 2 * k ==> w[k] == v[i]
    ensures Scatter(v, at, w)[i] == v[i]
  {
    if w != [] {
      assert forall k :: 0 <= k < |w| - 1 ==> w[..|w| - 1][k] == w[k];
      ScatterLeaves(v, at, w[..|w| - 1], i);
      if i == at + 2 * (|w| - 1) { assert w[|w| - 1] == v[i]; }
    }
  }

  /** What is read with a stride is the words at the stride. */
  lemma {:induction false} GatherAt(v: seq<Word>, from: nat, count: nat, k: nat)
    requires k < count && from + (count - 1) * 2 < |v|
    ensures from + 2 * k < |v| && Crc.Gather(v, from, count, 2)[k] == v[from + 2 * k]
  {
    if k < count - 1 { GatherAt(v, from, count - 1, k); }
  }

  /** Reading depends only on the words read, wherever they lie. */
  lemma {:induction false} GatherSame(a: seq<Word>, i: nat, b: seq<Word>, j: nat, count: nat)
    requires count > 0 ==> i + (count - 1) * 2 < |a| && j + (count - 1) * 2 < |b|
    requires forall k :: 0 <= k < count ==> WordAt(a, i + 2 * k) == WordAt(b, j + 2 * k)
    ensures Crc.Gather(a, i, count, 2) == Crc.Gather(b, j, count, 2)
  {
    if count > 0 {
      GatherSame(a, i, b, j, count - 1);
      assert WordAt(a, i + 2 * (count - 1)) == WordAt(b, j + 2 * (count - 1));
    }
  }

  function WordAt(v: seq<Word>, i: nat): Word { if i < |v| then v[i] else 0 }

  // ---------------------------------------------------------------------------
  // One line's block: the line and the next line's header
  // ---------------------------------------------------------------------------

  function Span(fi: Format): nat { fi.LineWords() + 16 }

  function Cover(fi: Format): nat
    requires fi.WellFormed()
  {
    fi.LineWords() - fi.activeWidth * 2
  }

  function CrcCount(fi: Format): nat { fi.activeWidth + 6 }

  /** The two CRC words of stream `s`, over a block. */
  function StreamCrc(fi: Format, v: seq<Word>, s: nat): (r: (Word, Word))
    requires fi.WellFormed() && fi.isHd && |v| == Span(fi) && s < 2
    ensures r.0 < 1024 && r.1 < 1024
  {
    var crc := Crc.Crc18(Crc.Gather(v, Cover(fi) + s, CrcCount(fi), 2), 0);
    Crc.CarriersAreLegal(crc);
    Crc.CrcToWords(crc)
  }

  /** The line's CRCs hold in both streams. */
  ghost predicate BlockCrc(fi: Format, v: seq<Word>)
    requires fi.WellFormed() && fi.isHd && |v| == Span(fi)
  {
    var at := fi.LineWords() + 12;
    && v[at] == StreamCrc(fi, v, 0).0 && v[at + 2] == StreamCrc(fi, v, 0).1
    && v[at + 1] == StreamCrc(fi, v, 1).0 && v[at + 3] == StreamCrc(fi, v, 1).1
  }

  /** The CRCs depend on the active words, the header after them, and nothing else. */
  lemma {:induction false} CrcLocal(fi: Format, v: seq<Word>, w: seq<Word>, s: nat)
    requires fi.WellFormed() && fi.isHd && |v| == |w| == Span(fi) && s < 2
    requires forall i :: Cover(fi) <= i < fi.LineWords() + 12 ==> v[i] == w[i]
    ensures StreamCrc(fi, v, s) == StreamCrc(fi, w, s)
  {
    hide Crc.Gather, Crc.Crc18, Crc.CrcToWords;
    var from := Cover(fi) + s;
    forall k | 0 <= k < CrcCount(fi) ensures WordAt(v, from + 2 * k) == WordAt(w, from + 2 * k) {
      assert v[from + 2 * k] == w[from + 2 * k];
    }
    GatherSame(v, from, w, from, CrcCount(fi));
  }

  function Repaired(fi: Format, v: seq<Word>): (r: seq<Word>)
    requires fi.WellFormed() && fi.isHd && |v| == Span(fi)
    ensures |r| == |v|
  {
    var at := fi.LineWords() + 12;
    var c, y := StreamCrc(fi, v, 0), StreamCrc(fi, v, 1);
    v[at := c.0][at + 2 := c.1][at + 1 := y.0][at + 3 := y.1]
  }

  lemma {:induction false} RepairedHolds(fi: Format, v: seq<Word>)
    requires fi.WellFormed() && fi.isHd && |v| == Span(fi)
    ensures BlockCrc(fi, Repaired(fi, v))
    ensures forall i :: 0 <= i < fi.LineWords() + 12 ==> Repaired(fi, v)[i] == v[i]
  {
    hide StreamCrc;
    CrcLocal(fi, v, Repaired(fi, v), 0);
    CrcLocal(fi, v, Repaired(fi, v), 1);
  }

  // ---------------------------------------------------------------------------
  // One packet
  // ---------------------------------------------------------------------------

  /** A packet at offset `rel` of a block, with `dc` user words. */
  predicate Fits(fi: Format, rel: nat, dc: nat) { 16 <= dc <= 64 && rel + 2 * (3 + dc) < Span(fi) }

  /** A packet wholly in the line's blanking or wholly in its active words. */
  predicate Inside(fi: Format, rel: nat, dc: nat)
    requires fi.WellFormed()
  {
    && 16 <= dc <= 64
    && ((16 <= rel && rel + 2 * (3 + dc) < Cover(fi) - 8)
        || (Cover(fi) <= rel && rel + 2 * (3 + dc) < fi.LineWords()))
  }

  function Udw(v: seq<Word>, did: nat): (r: seq<Word>)
    requires did + 36 < |v|
    ensures |r| == 16
  {
    Crc.Gather(v, did + 6, 16, 2)
  }

  /** The words the checksum is over: DID, SDID, count and user words. */
  function Packet(v: seq<Word>, did: nat, dc: nat): seq<Word>
    requires did + 2 * (2 + dc) < |v|
  {
    Crc.Gather(v, did, 3 + dc, 2)
  }

  function WithTime(v: seq<Word>, rel: nat, t: Fields): (r: seq<Word>)
    requires rel + 36 < |v|
    ensures |r| == |v|
  {
    Scatter(v, rel + 6, Written(Udw(v, rel), t))
  }

  function WithChecksum(v: seq<Word>, rel: nat, dc: nat): (r: seq<Word>)
    requires rel + 2 * (3 + dc) < |v|
    ensures |r| == |v|
  {
    v[rel + 2 * (3 + dc) := Crc.Checksum(Packet(v, rel, dc))]
  }

  /** A block with a time written into one packet, its checksum and, if the CRC model is
    * confirmed, the line's CRCs made good. */
  function PatchedBlock(fi: Format, v: seq<Word>, rel: nat, dc: nat, crcOk: bool, t: Fields): (r: seq<Word>)
    requires fi.WellFormed() && fi.isHd && |v| == Span(fi) && Fits(fi, rel, dc)
    ensures |r| == |v|
  {
    var u := WithChecksum(WithTime(v, rel, t), rel, dc);
    if crcOk then Repaired(fi, u) else u
  }

  /** The eight user words that hold digits. */
  predicate DigitPlace(rel: nat, i: nat) { rel + 6 <= i < rel + 38 && (i - rel - 6) % 4 == 0 }

  /** Where a packet's patch may write. */
  predicate Touched(fi: Format, rel: nat, dc: nat, i: nat) {
    || DigitPlace(rel, i)
    || i == rel + 2 * (3 + dc)
    || fi.LineWords() + 12 <= i < fi.LineWords() + 16
  }

  lemma {:induction false} TimeTouches(v: seq<Word>, rel: nat, t: Fields, i: nat)
    requires rel + 36 < |v| && i < |v| && !DigitPlace(rel, i)
    ensures WithTime(v, rel, t)[i] == v[i]
  {
    hide Put;
    var w := Written(Udw(v, rel), t);
    forall k | 0 <= k < 16 && i == rel + 6 + 2 * k
      ensures w[k] == v[i]
    {
      GatherAt(v, rel + 6, 16, k);
    }
    ScatterLeaves(v, rel + 6, w, i);
  }

  lemma {:induction false} TimeIsWritten(v: seq<Word>, rel: nat, t: Fields)
    requires rel + 36 < |v|
    ensures Udw(WithTime(v, rel, t), rel) == Written(Udw(v, rel), t)
  {
    hide Written;
    var w := Written(Udw(v, rel), t);
    var u := WithTime(v, rel, t);
    forall k | 0 <= k < 16 ensures Udw(u, rel)[k] == w[k] {
      GatherAt(u, rel + 6, 16, k);
      ScatterReads(v, rel + 6, w, k);
    }
  }

  /** A patch changes nothing but eight user words, the checksum and the CRC words. */
  lemma {:induction false} PatchLeaves(fi: Format, v: seq<Word>, rel: nat, dc: nat, crcOk: bool, t: Fields, i: nat)
    requires fi.WellFormed() && fi.isHd && |v| == Span(fi) && Fits(fi, rel, dc)
    requires i < |v| && !Touched(fi, rel, dc, i)
    ensures PatchedBlock(fi, v, rel, dc, crcOk, t)[i] == v[i]
  {
    hide StreamCrc, WithTime, Packet, Crc.Checksum;
    TimeTouches(v, rel, t, i);
  }

  /** The packet of a patched block has the new time and a right checksum. */
  lemma {:induction false} PatchedPacket(fi: Format, v: seq<Word>, rel: nat, dc: nat, crcOk: bool, t: Fields)
    requires fi.WellFormed() && fi.isHd && |v| == Span(fi) && Inside(fi, rel, dc)
    ensures Fits(fi, rel, dc)
    ensures var r := PatchedBlock(fi, v, rel, dc, crcOk, t);
            && Udw(r, rel) == Written(Udw(v, rel), t)
            && r[rel + 2 * (3 + dc)] == Crc.Checksum(Packet(r, rel, dc))
  {
    hide StreamCrc, Written, Crc.Checksum;
    var u := WithTime(v, rel, t);
    var c := WithChecksum(u, rel, dc);
    var r := PatchedBlock(fi, v, rel, dc, crcOk, t);
    TimeIsWritten(v, rel, t);
    GatherSame(u, rel + 6, r, rel + 6, 16);
    GatherSame(u, rel, r, rel, 3 + dc);
  }

  /** A patched line's CRCs hold if the model was confirmed; if not they hold as before
    * whenever the packet is in the blanking. */
  lemma {:induction false} PatchedCrc(fi: Format, v: seq<Word>, rel: nat, dc: nat, crcOk: bool, t: Fields)
    requires fi.WellFormed() && fi.isHd && |v| == Span(fi) && Inside(fi, rel, dc)
    ensures Fits(fi, rel, dc)
    ensures crcOk ==> BlockCrc(fi, PatchedBlock(fi, v, rel, dc, crcOk, t))
    ensures !crcOk && rel < Cover(fi) ==>
              (BlockCrc(fi, PatchedBlock(fi, v, rel, dc, crcOk, t)) <==> BlockCrc(fi, v))
  {
    hide StreamCrc, Packet, Crc.Checksum, WithTime;
    var r := PatchedBlock(fi, v, rel, dc, crcOk, t);
    RepairedHolds(fi, WithChecksum(WithTime(v, rel, t), rel, dc));
    if !crcOk && rel < Cover(fi) {
      forall i: nat | Cover(fi) <= i < |v| ensures r[i] == v[i] {
        assert i > rel + 38;
        TimeTouches(v, rel, t, i);
      }
      CrcLocal(fi, v, r, 0);
      CrcLocal(fi, v, r, 1);
    }
  }

  /** The words a patch writes are ten-bit words, like those it found. */
  lemma {:induction false} PatchedNarrow(fi: Format, v: seq<Word>, rel: nat, dc: nat, crcOk: bool, t: Fields, i: nat)
    requires fi.WellFormed() && fi.isHd && |v| == Span(fi) && Fits(fi, rel, dc) && i < |v|
    requires forall k :: 0 <= k < |v| ==> v[k] < 1024
    ensures PatchedBlock(fi, v, rel, dc, crcOk, t)[i] < 1024
  {
    hide StreamCrc, Packet, Put;
    if DigitPlace(rel, i) {
      var k := (i - rel - 6) / 4 * 2;
      assert i == rel + 6 + 2 * k;
      ScatterReads(v, rel + 6, Written(Udw(v, rel), t), k);
      GatherAt(v, rel + 6, 16, k);
    } else {
      TimeTouches(v, rel, t, i);
    }
  }

  // ---------------------------------------------------------------------------
  // The frame
  // ---------------------------------------------------------------------------

  /** A packet found in a frame: where its DID is, how many user words it has, the line
    * its block starts with, whether it counts down, and what it first read. */
  datatype Site = Site(did: nat, dc: nat, line: nat, countdown: bool, firstValue: nat)

  function BlockStart(fi: Format, line: nat): nat
    requires line >= 1
  {
    (line - 1) * fi.LineWords()
  }

  /** The blocks of two lines are a line apart at least. */
  lemma BlocksApart(fi: Format, a: nat, b: nat)
    requires 1 <= a && 1 <= b && a != b
    ensures if a < b then BlockStart(fi, a) + fi.LineWords() <= BlockStart(fi, b)
            else BlockStart(fi, b) + fi.LineWords() <= BlockStart(fi, a)
  {
    hide Format.LineWords;
    if a < b {
      Gf2.Apart(a - 1, b - 1, fi.LineWords());
    } else {
      Gf2.Apart(b - 1, a - 1, fi.LineWords());
    }
  }

  predicate SiteFits(fi: Format, site: Site) {
    1 <= site.line && BlockStart(fi, site.line) <= site.did
    && Fits(fi, site.did - BlockStart(fi, site.line), site.dc)
  }

  function Block(fi: Format, words: seq<Word>, line: nat): (r: seq<Word>)
    requires 1 <= line && BlockStart(fi, line) + Span(fi) <= |words|
    ensures |r| == Span(fi)
  {
    words[BlockStart(fi, line)..BlockStart(fi, line) + Span(fi)]
  }

  /** The line's block lies in the frame and a packet of the right kind is still there. */
  predicate Patchable(fi: Format, words: seq<Word>, site: Site) {
    && 1 <= site.line && BlockStart(fi, site.line) + Span(fi) <= |words|
    && BlockStart(fi, site.line) <= site.did && site.did + 2 < BlockStart(fi, site.line) + Span(fi)
    && words[site.did] % 256 == 0x60 && words[site.did + 2] % 256 == 0x60
  }

  /** The rewriter does not look where a packet ends before it writes the checksum behind it:
    * patching stays inside the block it unpacked exactly if a packet that is there fits. */
  predicate Safe(fi: Format, words: seq<Word>, site: Site) {
    Patchable(fi, words, site) ==> SiteFits(fi, site)
  }

  /** The frame with one site patched, where that is safe. */
  function PatchedSite(fi: Format, words: seq<Word>, site: Site, crcOk: bool, t: Fields): (r: seq<Word>)
    requires fi.WellFormed() && fi.isHd
    ensures |r| == |words|
  {
    if !(Patchable(fi, words, site) && SiteFits(fi, site)) then words
    else
      var b := BlockStart(fi, site.line);
      words[..b] + PatchedBlock(fi, Block(fi, words, site.line), site.did - b, site.dc, crcOk, t)
        + words[b + Span(fi)..]
  }

  /** Only what still has a DID and SDID of 0x60 is patched: anything else stays as it is. */
  lemma {:induction false} OthersStay(fi: Format, words: seq<Word>, site: Site, crcOk: bool, t: Fields)
    requires fi.WellFormed() && fi.isHd && site.did + 2 < |words|
    requires words[site.did] % 256 != 0x60 || words[site.did + 2] % 256 != 0x60
    ensures PatchedSite(fi, words, site, crcOk, t) == words
  {
    hide PatchedBlock, BlockStart;
  }

  /** The CRCs of a line of the frame hold. */
  ghost predicate LineCrc(fi: Format, words: seq<Word>, line: nat)
    requires fi.WellFormed() && fi.isHd && 1 <= line && BlockStart(fi, line) + Span(fi) <= |words|
  {
    BlockCrc(fi, Block(fi, words, line))
  }

  /** Every line whose CRCs held before a patch holds after it: the one patched because
    * it is repaired, the others because nothing of theirs is touched. */
  lemma {:induction false} PatchKeepsLineCrcs(fi: Format, words: seq<Word>, site: Site, crcOk: bool, t: Fields, line: nat)
    requires fi.WellFormed() && fi.isHd && 1 <= site.line && BlockStart(fi, site.line) <= site.did
    requires Inside(fi, site.did - BlockStart(fi, site.line), site.dc)
    requires crcOk || site.did - BlockStart(fi, site.line) < Cover(fi)
    requires 1 <= line && BlockStart(fi, line) + Span(fi) <= |words| && LineCrc(fi, words, line)
    ensures SiteFits(fi, site)
    ensures LineCrc(fi, PatchedSite(fi, words, site, crcOk, t), line)
  {
    hide PatchedBlock, StreamCrc, BlockStart;
    var b, after := BlockStart(fi, site.line), PatchedSite(fi, words, site, crcOk, t);
    if Patchable(fi, words, site) {
      var rel, v := site.did - b, Block(fi, words, site.line);
      var r := PatchedBlock(fi, v, rel, site.dc, crcOk, t);
      if line == site.line {
        PatchedCrc(fi, v, rel, site.dc, crcOk, t);
        assert Block(fi, after, line) == r;
      } else {
        BlocksApart(fi, site.line, line);
        var c := BlockStart(fi, line);
        var w, x := Block(fi, words, line), Block(fi, after, line);
        forall i: nat | Cover(fi) <= i < Span(fi) ensures w[i] == x[i] {
          assert w[i] == words[c + i] && x[i] == after[c + i];
          if b <= c + i < b + Span(fi) {
            PatchLeaves(fi, v, rel, site.dc, crcOk, t, c + i - b);
          }
        }
        SameCrc(fi, w, x);
      }
    }
  }

  lemma {:induction false} SameCrc(fi: Format, v: seq<Word>, w: seq<Word>)
    requires fi.WellFormed() && fi.isHd && |v| == |w| == Span(fi)
    requires forall i :: Cover(fi) <= i < Span(fi) ==> v[i] == w[i]
    ensures BlockCrc(fi, v) ==> BlockCrc(fi, w)
  {
    hide StreamCrc;
    CrcLocal(fi, v, w, 0);
    CrcLocal(fi, v, w, 1);
  }

  // ---------------------------------------------------------------------------
  // All the sites of a frame
  // ---------------------------------------------------------------------------

  ghost predicate SiteInside(fi: Format, site: Site)
    requires fi.WellFormed()
  {
    1 <= site.line && BlockStart(fi, site.line) <= site.did
    && Inside(fi, site.did - BlockStart(fi, site.line), site.dc)
  }

  lemma InsideFits(fi: Format, site: Site)
    requires fi.WellFormed() && SiteInside(fi, site)
    ensures SiteFits(fi, site)
  {
    hide BlockStart;
  }

  ghost predicate AllInside(fi: Format, sites: seq<Site>)
    requires fi.WellFormed()
  {
    forall i :: 0 <= i < |sites| ==> SiteInside(fi, sites[i])
  }

  ghost predicate AllFit(fi: Format, sites: seq<Site>) {
    forall i :: 0 <= i < |sites| ==> SiteFits(fi, sites[i])
  }

  lemma {:induction false} FrontFits(fi: Format, sites: seq<Site>)
    requires AllFit(fi, sites) && sites != []
    ensures AllFit(fi, sites[..|sites| - 1]) && SiteFits(fi, sites[|sites| - 1])
  {
    hide SiteFits;
  }

  function TimeFor(site: Site, tod: Fields, left: Fields): Fields { if site.countdown then left else tod }

  function PatchedAll(fi: Format, words: seq<Word>, sites: seq<Site>, crcOk: bool, tod: Fields, left: Fields): (r: seq<Word>)
    requires fi.WellFormed() && fi.isHd
    ensures |r| == |words|
  {
    if sites == [] then words
    else
      var site := sites[|sites| - 1];
      PatchedSite(fi, PatchedAll(fi, words, sites[..|sites| - 1], crcOk, tod, left), site, crcOk, TimeFor(site, tod, left))
  }

  /** Every site is safe to patch when its turn comes. */
  predicate AllSafe(fi: Format, words: seq<Word>, sites: seq<Site>, crcOk: bool, tod: Fields, left: Fields)
    requires fi.WellFormed() && fi.isHd
  {
    sites == [] ||
    (var front := sites[..|sites| - 1];
     && AllSafe(fi, words, front, crcOk, tod, left)
     && Safe(fi, PatchedAll(fi, words, front, crcOk, tod, left), sites[|sites| - 1]))
  }

  lemma {:induction false} FittingIsSafe(fi: Format, words: seq<Word>, sites: seq<Site>, crcOk: bool, tod: Fields, left: Fields)
    requires fi.WellFormed() && fi.isHd && AllFit(fi, sites)
    ensures AllSafe(fi, words, sites, crcOk, tod, left)
  {
    hide SiteFits, PatchedAll, Format.WellFormed;
    if sites != [] {
      FrontFits(fi, sites);
      FittingIsSafe(fi, words, sites[..|sites| - 1], crcOk, tod, left);
    }
  }

  /** The frame stays valid: with the CRC model confirmed, every line CRC of both streams
    * that held before the sites were patched holds after. */
  lemma {:induction false} AllLineCrcsKept(fi: Format, words: seq<Word>, sites: seq<Site>, crcOk: bool,
                                           tod: Fields, left: Fields, line: nat)
    requires fi.WellFormed() && fi.isHd && AllInside(fi, sites)
    requires crcOk || forall i :: 0 <= i < |sites| ==> InBlanking(fi, sites[i])
    requires 1 <= line && BlockStart(fi, line) + Span(fi) <= |words| && LineCrc(fi, words, line)
    ensures AllFit(fi, sites)
    ensures LineCrc(fi, PatchedAll(fi, words, sites, crcOk, tod, left), line)
  {
    hide PatchedSite, LineCrc, Inside, BlockStart, Format.WellFormed, SiteFits;
    forall i | 0 <= i < |sites| ensures SiteFits(fi, sites[i]) { InsideFits(fi, sites[i]); }
    if sites != [] {
      var front, site := sites[..|sites| - 1], sites[|sites| - 1];
      AllLineCrcsKept(fi, words, front, crcOk, tod, left, line);
      assert InBlanking(fi, site) || crcOk;
      PatchKeepsLineCrcs(fi, PatchedAll(fi, words, front, crcOk, tod, left), site, crcOk,
                         TimeFor(site, tod, left), line);
    }
  }

  ghost predicate InBlanking(fi: Format, site: Site)
    requires fi.WellFormed()
  {
    1 <= site.line && BlockStart(fi, site.line) <= site.did && site.did - BlockStart(fi, site.line) < Cover(fi)
  }

  /** A word of the frame that patching a site may change. */
  ghost predicate SiteTouches(fi: Format, site: Site, i: nat) {
    1 <= site.line && BlockStart(fi, site.line) <= site.did && BlockStart(fi, site.line) <= i
    && Touched(fi, site.did - BlockStart(fi, site.line), site.dc, i - BlockStart(fi, site.line))
  }

  lemma {:induction false} SiteLeaves(fi: Format, words: seq<Word>, site: Site, crcOk: bool, t: Fields, i: nat)
    requires fi.WellFormed() && fi.isHd && SiteFits(fi, site) && i < |words| && !SiteTouches(fi, site, i)
    ensures PatchedSite(fi, words, site, crcOk, t)[i] == words[i]
  {
    hide PatchedBlock, BlockStart, Touched;
    var b := BlockStart(fi, site.line);
    if Patchable(fi, words, site) && b <= i < b + Span(fi) {
      PatchLeaves(fi, Block(fi, words, site.line), site.did - b, site.dc, crcOk, t, i - b);
    }
  }

  /** Nothing in the frame changes but the digits, checksums and CRC words of its sites. */
  lemma {:induction false} OnlySitesChange(fi: Format, words: seq<Word>, sites: seq<Site>, crcOk: bool,
                                           tod: Fields, left: Fields, i: nat)
    requires fi.WellFormed() && fi.isHd && AllFit(fi, sites)
    requires i < |words| && forall k :: 0 <= k < |sites| ==> !SiteTouches(fi, sites[k], i)
    ensures PatchedAll(fi, words, sites, crcOk, tod, left)[i] == words[i]
  {
    hide PatchedSite, SiteTouches, SiteFits, Format.WellFormed;
    if sites != [] {
      var front, site := sites[..|sites| - 1], sites[|sites| - 1];
      FrontFits(fi, sites);
      OnlySitesChange(fi, words, front, crcOk, tod, left, i);
      SiteLeaves(fi, PatchedAll(fi, words, front, crcOk, tod, left), site, crcOk, TimeFor(site, tod, left), i);
    }
  }

  // ---------------------------------------------------------------------------
  // The packets of a patched frame
  // ---------------------------------------------------------------------------

  /** Two packets that do not overlap. */
  predicate Apart(a: Site, b: Site) {
    a.did + 2 * (3 + a.dc) < b.did || b.did + 2 * (3 + b.dc) < a.did
  }

  /** A word of a packet: DID, SDID, count, user words and checksum. */
  predicate InPacket(site: Site, i: nat) { site.did <= i <= site.did + 2 * (3 + site.dc) }

  lemma {:induction false} OthersUntouched(fi: Format, a: Site, b: Site, i: nat)
    requires fi.WellFormed() && fi.isHd && SiteInside(fi, a) && SiteInside(fi, b) && Apart(a, b) && InPacket(b, i)
    ensures !SiteTouches(fi, a, i)
  {
    hide BlockStart;
    if a.line != b.line { BlocksApart(fi, a.line, b.line); }
  }

  /** A packet's words are those of another frame. */
  ghost predicate SamePacket(v: seq<Word>, w: seq<Word>, site: Site) {
    |v| == |w| && site.did + 2 * (3 + site.dc) < |v| && forall i: nat :: InPacket(site, i) ==> v[i] == w[i]
  }

  lemma {:induction false} SamePacketReads(v: seq<Word>, w: seq<Word>, site: Site)
    requires SamePacket(v, w, site) && site.dc >= 16
    ensures Udw(v, site.did) == Udw(w, site.did) && Packet(v, site.did, site.dc) == Packet(w, site.did, site.dc)
    ensures v[site.did + 2 * (3 + site.dc)] == w[site.did + 2 * (3 + site.dc)]
  {
    ShiftedReads(v, w, site, 0);
    assert InPacket(site, site.did + 2 * (3 + site.dc));
  }

  /** The same words at a shift read the same. */
  lemma {:induction false} ShiftedReads(v: seq<Word>, w: seq<Word>, site: Site, shift: nat)
    requires site.dc >= 16 && shift <= site.did && site.did + 2 * (3 + site.dc) < |v|
    requires site.did - shift + 2 * (3 + site.dc) < |w|
    requires forall i: nat :: InPacket(site, i) ==> v[i] == w[i - shift]
    ensures Udw(v, site.did) == Udw(w, site.did - shift)
    ensures Packet(v, site.did, site.dc) == Packet(w, site.did - shift, site.dc)
  {
    hide Crc.Gather;
    var did := site.did;
    forall k | 0 <= k < 3 + site.dc ensures WordAt(v, did + 2 * k) == WordAt(w, did - shift + 2 * k) {
      assert InPacket(site, did + 2 * k);
    }
    forall k | 0 <= k < 16 ensures WordAt(v, did + 6 + 2 * k) == WordAt(w, did - shift + 6 + 2 * k) {
      assert InPacket(site, did + 6 + 2 * k);
    }
    GatherSame(v, did, w, did - shift, 3 + site.dc);
    GatherSame(v, did + 6, w, did - shift + 6, 16);
  }

  /** A packet with a time in it and a right checksum. */
  ghost predicate Carries(words: seq<Word>, site: Site, digits: seq<Word>) {
    && 16 <= site.dc && site.did + 2 * (3 + site.dc) < |words|
    && Udw(words, site.did) == digits
    && words[site.did + 2 * (3 + site.dc)] == Crc.Checksum(Packet(words, site.did, site.dc))
  }

  lemma {:induction false} PatchWritesPacket(fi: Format, words: seq<Word>, site: Site, crcOk: bool, t: Fields)
    requires fi.WellFormed() && fi.isHd && SiteInside(fi, site) && Patchable(fi, words, site)
    ensures SiteFits(fi, site) && site.did + 36 < |words|
    ensures Carries(PatchedSite(fi, words, site, crcOk, t), site, Written(Udw(words, site.did), t))
  {
    hide PatchedBlock, BlockStart, Written, Crc.Checksum, Udw, Packet;
    var b := BlockStart(fi, site.line);
    var v, rel := Block(fi, words, site.line), site.did - b;
    var r := PatchedBlock(fi, v, rel, site.dc, crcOk, t);
    var after := PatchedSite(fi, words, site, crcOk, t);
    PatchedPacket(fi, v, rel, site.dc, crcOk, t);
    forall i: nat | InPacket(site, i) ensures after[i] == r[i - b] && words[i] == v[i - b] {}
    ShiftedReads(after, r, site, b);
    ShiftedReads(words, v, site, b);
  }

  /** Patching one site leaves another's packet alone. */
  lemma {:induction false} OtherPacketKept(fi: Format, words: seq<Word>, a: Site, b: Site, crcOk: bool, t: Fields)
    requires fi.WellFormed() && fi.isHd && SiteInside(fi, a) && SiteInside(fi, b) && Apart(a, b)
    requires b.did + 2 * (3 + b.dc) < |words|
    ensures SiteFits(fi, a) && SamePacket(words, PatchedSite(fi, words, a, crcOk, t), b)
    ensures Patchable(fi, words, b) <==> Patchable(fi, PatchedSite(fi, words, a, crcOk, t), b)
  {
    hide PatchedSite, SiteTouches, BlockStart, Format.WellFormed, Apart;
    InsideFits(fi, a);
    var after := PatchedSite(fi, words, a, crcOk, t);
    forall i: nat | InPacket(b, i) ensures after[i] == words[i] {
      OthersUntouched(fi, a, b, i);
      SiteLeaves(fi, words, a, crcOk, t, i);
    }
    assert InPacket(b, b.did) && InPacket(b, b.did + 2);
  }

  ghost predicate AllApart(sites: seq<Site>) {
    forall i, j :: 0 <= i < j < |sites| ==> Apart(sites[i], sites[j])
  }

  /** A site at which a packet was there to patch, among non-overlapping ones, ends up
    * with its own time and a right checksum, whatever was patched before and after. */
  lemma {:induction false} EveryPacketIsPatched(fi: Format, words: seq<Word>, sites: seq<Site>, crcOk: bool,
                                                tod: Fields, left: Fields, j: nat)
    requires fi.WellFormed() && fi.isHd && AllInside(fi, sites) && AllApart(sites)
    requires j < |sites| && Patchable(fi, words, sites[j])
    ensures AllFit(fi, sites) && sites[j].did + 36 < |words|
    ensures Carries(PatchedAll(fi, words, sites, crcOk, tod, left), sites[j],
                    Written(Udw(words, sites[j].did), TimeFor(sites[j], tod, left)))
  {
    hide PatchedSite, SiteFits, SiteInside, Format.WellFormed, Written, Udw, Patchable, Packet, SamePacket, Apart;
    forall i | 0 <= i < |sites| ensures SiteFits(fi, sites[i]) { InsideFits(fi, sites[i]); }
    var front, last := sites[..|sites| - 1], sites[|sites| - 1];
    var before := PatchedAll(fi, words, front, crcOk, tod, left);
    PacketInFrame(fi, words, sites[j]);
    if j < |front| {
      EveryPacketIsPatched(fi, words, front, crcOk, tod, left, j);
      assert front[j] == sites[j];
      assert Apart(sites[j], last);
      ApartSwaps(sites[j], last);
      OtherPacketKept(fi, before, last, sites[j], crcOk, TimeFor(last, tod, left));
      SamePacketReads(before, PatchedSite(fi, before, last, crcOk, TimeFor(last, tod, left)), sites[j]);
    } else {
      StillThere(fi, words, front, crcOk, tod, left, last);
      PatchWritesPacket(fi, before, last, crcOk, TimeFor(last, tod, left));
    }
  }

  /** So in the words of the patched frame every such packet shows its time digit by digit,
    * ones before tens, four words to a pair from three words behind the DID on, and is
    * followed by the sum of its words to nine bits. */
  lemma {:induction false} PatchedDigits(fi: Format, words: seq<Word>, sites: seq<Site>, crcOk: bool,
                                         tod: Fields, left: Fields, j: nat)
    requires fi.WellFormed() && fi.isHd && AllInside(fi, sites) && AllApart(sites)
    requires j < |sites| && Patchable(fi, words, sites[j])
    ensures AllFit(fi, sites)
    ensures var w := PatchedAll(fi, words, sites, crcOk, tod, left);
            var t, d, sum := (if sites[j].countdown then left else tod), sites[j].did, sites[j].did + 2 * (3 + sites[j].dc);
            && d + 36 < |w| && sum < |w|
            && (t.f < 40 <==> w[d + 6] / 16 % 16 + 10 * (w[d + 10] / 16 % 16) == t.f)
            && (t.s < 60 ==> w[d + 14] / 16 % 16 + 10 * (w[d + 18] / 16 % 16) == t.s)
            && (t.m < 60 ==> w[d + 22] / 16 % 16 + 10 * (w[d + 26] / 16 % 16) == t.m)
            && (t.h < 24 ==> w[d + 30] / 16 % 16 + 10 * (w[d + 34] / 16 % 16) == t.h)
            && w[sum] % 512 == Crc.Total(Crc.Gather(w, d, 3 + sites[j].dc, 2)) % 512
            && w[sum] < 1024 && w[sum] / 512 + w[sum] / 256 % 2 == 1
  {
    hide PatchedAll, Written, Crc.Checksum, Crc.Total, Patchable, AllInside, AllApart, AllFit, Format.WellFormed, Crc.Gather;
    EveryPacketIsPatched(fi, words, sites, crcOk, tod, left, j);
    var w, site := PatchedAll(fi, words, sites, crcOk, tod, left), sites[j];
    var t := TimeFor(site, tod, left);
    DigitsWritten(Udw(words, site.did), t);
    Crc.ChecksumIsSum(Packet(w, site.did, site.dc));
    forall k | 0 <= k < 16 ensures w[site.did + 6 + 2 * k] == Written(Udw(words, site.did), t)[k] {
      GatherAt(w, site.did + 6, 16, k);
    }
  }

  lemma ApartSwaps(a: Site, b: Site)
    requires Apart(a, b)
    ensures Apart(b, a)
  {}

  lemma {:induction false} PacketInFrame(fi: Format, words: seq<Word>, site: Site)
    requires fi.WellFormed() && SiteInside(fi, site) && Patchable(fi, words, site)
    ensures site.dc >= 16 && site.did + 2 * (3 + site.dc) < |words| && site.did + 36 < |words|
  {
    hide BlockStart;
  }

  /** Patching the others leaves a packet as it was, to be patched in its turn. */
  lemma {:induction false} StillThere(fi: Format, words: seq<Word>, sites: seq<Site>, crcOk: bool,
                                      tod: Fields, left: Fields, site: Site)
    requires fi.WellFormed() && fi.isHd && AllInside(fi, sites) && SiteInside(fi, site)
    requires forall i :: 0 <= i < |sites| ==> Apart(sites[i], site)
    requires Patchable(fi, words, site)
    ensures AllFit(fi, sites) && site.did + 36 < |words|
    ensures var after := PatchedAll(fi, words, sites, crcOk, tod, left);
            Patchable(fi, after, site) && Udw(after, site.did) == Udw(words, site.did)
  {
    hide PatchedSite, SiteFits, SiteInside, Format.WellFormed, Udw, Patchable, SamePacket, Apart, Packet;
    forall i | 0 <= i < |sites| ensures SiteFits(fi, sites[i]) { InsideFits(fi, sites[i]); }
    PacketInFrame(fi, words, site);
    if sites != [] {
      var front, last := sites[..|sites| - 1], sites[|sites| - 1];
      StillThere(fi, words, front, crcOk, tod, left, site);
      var before := PatchedAll(fi, words, front, crcOk, tod, left);
      OtherPacketKept(fi, before, last, site, crcOk, TimeFor(last, tod, left));
      SamePacketReads(before, PatchedSite(fi, before, last, crcOk, TimeFor(last, tod, left)), site);
    }
  }

  /** Read back from the patched frame, a packet gives the time that was asked for, within
    * a day, exactly when that time's frame field is below forty. */
  lemma {:induction false} PatchedTimeReadsBack(fi: Format, words: seq<Word>, sites: seq<Site>, crcOk: bool,
                                                tod: nat, left: nat, fps: nat, j: nat)
    requires fi.WellFormed() && fi.isHd && AllInside(fi, sites) && AllApart(sites) && fps > 0
    requires j < |sites| && Patchable(fi, words, sites[j])
    ensures AllFit(fi, sites) && sites[j].did + 36 < |words|
    ensures var after := PatchedAll(fi, words, sites, crcOk, FramesToFields(tod, fps), FramesToFields(left, fps));
            var wanted := if sites[j].countdown then left else tod;
            ReadAtc(Udw(after, sites[j].did), fps) == wanted % (86400 * fps) <==> wanted % fps < 40
  {
    hide PatchedAll, Written, ReadAtc, FramesToFields, Udw, AllInside, AllApart, Patchable, Format.WellFormed;
    EveryPacketIsPatched(fi, words, sites, crcOk, FramesToFields(tod, fps), FramesToFields(left, fps), j);
    var wanted := if sites[j].countdown then left else tod;
    TimeReadsBack(Udw(words, sites[j].did), wanted, fps);
  }
}
