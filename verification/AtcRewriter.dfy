/** The timecode rewriter: finding the packets of a frame, telling the countdown from the
  * time of day, and patching a frame in place. */
module AtcRewriter {
  import opened Wrappers
  import opened SdiFormat
  import opened Bitpack
  import opened Timecode
  import opened Atc
  import Crc

  // ---------------------------------------------------------------------------
  // Finding packets
  // ---------------------------------------------------------------------------

  function Read(v: seq<Word>, did: nat, fps: nat): nat
    requires did + 34 < |v|
  {
    ReadAtc(Crc.Gather(v, did + 6, 15, 2), fps)
  }

  /** A packet with the digits of a time, three words behind its DID and on, every other word a
    * user word, reads as that time in frames. */
  lemma {:induction false} DigitsAreRead(v: seq<Word>, did: nat, t: Fields, fps: nat)
    requires did + 34 < |v| && t.h < 24 && t.m < 60 && t.s < 60 && t.f < 40
    requires v[did + 30] / 16 % 16 == t.h % 10 && v[did + 34] / 16 % 16 == t.h / 10
    requires v[did + 22] / 16 % 16 == t.m % 10 && v[did + 26] / 16 % 16 == t.m / 10
    requires v[did + 14] / 16 % 16 == t.s % 10 && v[did + 18] / 16 % 16 == t.s / 10
    requires v[did + 6] / 16 % 16 == t.f % 10 && v[did + 10] / 16 % 16 == t.f / 10
    ensures Read(v, did, fps) == ((t.h * 60 + t.m) * 60 + t.s) * fps + t.f
  {
    hide ReadAtc, Crc.Gather;
    var u := Crc.Gather(v, did + 6, 15, 2);
    forall k | 0 <= k < 15 ensures u[k] == v[did + 6 + 2 * k] { GatherAt(v, did + 6, 15, k); }
    DigitsRead(u, t, fps);
  }

  /** A timecode packet begins at luma word `k`. */
  predicate Adf(fw: seq<Word>, k: nat) {
    && k + 40 < |fw| && fw[k] == 0 && fw[k + 2] == 0x3FF && fw[k + 4] == 0x3FF
    && fw[k + 6] % 256 == 0x60 && fw[k + 8] % 256 == 0x60
    && 16 <= fw[k + 10] % 256 <= 64
  }

  function LineAt(k: nat, lineWords: nat): nat
    requires lineWords > 0
  {
    k / lineWords + 1
  }

  function SiteAt(fi: Format, fw: seq<Word>, fps: nat, k: nat): Site
    requires fi.WellFormed() && Adf(fw, k)
  {
    Site(k + 6, fw[k + 10] % 256, LineAt(k, fi.LineWords()), false, Read(fw, k + 6, fps))
  }

  /** The packets of a frame, at luma words from `k` on. */
  function SitesFrom(fi: Format, fw: seq<Word>, fps: nat, k: nat): (r: seq<Site>)
    requires fi.WellFormed()
    decreases |fw| - k
  {
    if k + 40 >= |fw| then []
    else (if Adf(fw, k) then [SiteAt(fi, fw, fps, k)] else []) + SitesFrom(fi, fw, fps, k + 2)
  }

  lemma {:induction false} SitesStep(fi: Format, fw: seq<Word>, fps: nat, k: nat)
    requires fi.WellFormed()
    ensures k + 40 >= |fw| ==> SitesFrom(fi, fw, fps, k) == []
    ensures k + 40 < |fw| ==>
              SitesFrom(fi, fw, fps, k)
              == if Adf(fw, k) then [SiteAt(fi, fw, fps, k)] + SitesFrom(fi, fw, fps, k + 2) else SitesFrom(fi, fw, fps, k + 2)
  {
    hide Format.WellFormed, SiteAt;
    assert k + 40 < |fw| ==> [] + SitesFrom(fi, fw, fps, k + 2) == SitesFrom(fi, fw, fps, k + 2);
  }

  /** The packet that begins at luma word `k` ends, checksum and all, in the block of its line. */
  predicate EndsInBlock(fi: Format, fw: seq<Word>, k: nat)
    requires fi.WellFormed() && k + 10 < |fw|
  {
    k % fi.LineWords() + 2 * (fw[k + 10] % 256) < fi.LineWords() + 4
  }

  /** A site found fits the block it is patched in exactly if its packet ends there. */
  lemma {:induction false} SiteFitsExactly(fi: Format, fw: seq<Word>, fps: nat, k: nat)
    requires fi.WellFormed() && Adf(fw, k)
    ensures SiteFits(fi, SiteAt(fi, fw, fps, k)) <==> EndsInBlock(fi, fw, k)
    ensures var site := SiteAt(fi, fw, fps, k);
            site.did + 34 < |fw| && 1 <= site.line && BlockStart(fi, site.line) <= site.did && !site.countdown
  {
    hide Read;
    var lw := fi.LineWords();
    assert k == k / lw * lw + k % lw;
    assert BlockStart(fi, LineAt(k, lw)) + k % lw == k;
  }

  /** A frame of words with one packet of sixteen, at luma word `at`. */
  function Lonely(total: nat, at: nat): (r: seq<Word>)
    ensures |r| == total
  {
    seq(total, i => if i == at + 2 || i == at + 4 then 0x3FF else if i == at + 6 || i == at + 8 then 0x60
                    else if i == at + 10 then 16 else 0)
  }

  /** The shortest packet, in the last 28 words of a line, is found and does not fit. */
  lemma {:induction false} LateInLine(fi: Format, fps: nat, total: nat, at: nat)
    requires fi.WellFormed() && at + 40 < total && at % fi.LineWords() >= fi.LineWords() - 28
    ensures var fw := Lonely(total, at);
            Adf(fw, at) && !EndsInBlock(fi, fw, at) && !SiteFits(fi, SiteAt(fi, fw, fps, at))
  {
    hide Read;
    SiteFitsExactly(fi, Lonely(total, at), fps, at);
  }

  /** What finding the sites promises of them: their digits lie in the frame, their packets
    * begin in their lines, and none counts down yet. */
  lemma {:induction false} FoundSites(fi: Format, fw: seq<Word>, fps: nat, k: nat)
    requires fi.WellFormed()
    ensures var sites := SitesFrom(fi, fw, fps, k);
            AllRead(|fw|, sites) && AllPlaced(fi, sites) && forall i :: 0 <= i < |sites| ==> !sites[i].countdown
    decreases |fw| - k
  {
    hide Format.WellFormed, Read;
    if k + 40 < |fw| {
      FoundSites(fi, fw, fps, k + 2);
      var rest := SitesFrom(fi, fw, fps, k + 2);
      if Adf(fw, k) {
        SiteFitsExactly(fi, fw, fps, k);
        var site := SiteAt(fi, fw, fps, k);
        assert forall i :: 0 < i <= |rest| ==> ([site] + rest)[i] == rest[i - 1];
      } else {
        assert [] + rest == rest;
      }
    }
  }

  /** What is found, word by word: a site for every place, at an odd word, with the header of an
    * ancillary packet, a DID and SDID of 0x60 and a count from 16 to 64, and no other. */
  lemma {:induction false} SitesAre(fi: Format, fw: seq<Word>, fps: nat, k: nat, at: nat)
    requires fi.WellFormed() && k <= at && (at - k) % 2 == 0
    ensures var found := at + 40 < |fw| && fw[at] == 0 && fw[at + 2] == 0x3FF && fw[at + 4] == 0x3FF
                         && fw[at + 6] % 256 == 0x60 && fw[at + 8] % 256 == 0x60 && 16 <= fw[at + 10] % 256 <= 64;
            found <==> exists i :: SiteIs(fi, fw, fps, k, i, at)
    ensures forall i :: SiteIs(fi, fw, fps, k, i, at) ==>
              SitesFrom(fi, fw, fps, k)[i].dc == fw[at + 10] % 256
              && SitesFrom(fi, fw, fps, k)[i].line == at / fi.LineWords() + 1
              && SitesFrom(fi, fw, fps, k)[i].firstValue == Read(fw, at + 6, fps)
  {
    hide SitesFrom;
    PacketsFound(fi, fw, fps, k, at);
  }

  /** The `i`-th site found is that of a packet that begins at `at`. */
  ghost predicate SiteIs(fi: Format, fw: seq<Word>, fps: nat, k: nat, i: int, at: nat)
    requires fi.WellFormed()
  {
    0 <= i < |SitesFrom(fi, fw, fps, k)| && SitesFrom(fi, fw, fps, k)[i].did == at + 6
  }

  lemma {:induction false} PacketsFound(fi: Format, fw: seq<Word>, fps: nat, k: nat, at: nat)
    requires fi.WellFormed() && k <= at && (at - k) % 2 == 0
    ensures Adf(fw, at) <==> exists i :: SiteIs(fi, fw, fps, k, i, at)
    ensures forall i :: SiteIs(fi, fw, fps, k, i, at) ==>
              Adf(fw, at) && SitesFrom(fi, fw, fps, k)[i] == SiteAt(fi, fw, fps, at)
    decreases |fw| - k
  {
    hide Format.WellFormed, SitesFrom, Adf, SiteAt;
    SitesStep(fi, fw, fps, k);
    NoPacketPast(fw, at);
    LaterSites(fi, fw, fps, k);
    if k + 40 < |fw| {
      var rest, all := SitesFrom(fi, fw, fps, k + 2), SitesFrom(fi, fw, fps, k);
      LaterSites(fi, fw, fps, k + 2);
      var shift := if Adf(fw, k) then 1 else 0;
      assert forall i :: 0 <= i < |rest| ==> all[i + shift] == rest[i];
      if at >= k + 2 {
        PacketsFound(fi, fw, fps, k + 2, at);
        if Adf(fw, at) {
          var i :| SiteIs(fi, fw, fps, k + 2, i, at);
          assert SiteIs(fi, fw, fps, k, i + shift, at);
        }
        forall i | SiteIs(fi, fw, fps, k, i, at) ensures SiteIs(fi, fw, fps, k + 2, i - shift, at) {
          if Adf(fw, k) { SiteBegins(fi, fw, fps, k); }
        }
      } else if Adf(fw, k) {
        SiteBegins(fi, fw, fps, k);
        assert SiteIs(fi, fw, fps, k, 0, at);
      }
    }
  }

  lemma SiteBegins(fi: Format, fw: seq<Word>, fps: nat, k: nat)
    requires fi.WellFormed() && Adf(fw, k)
    ensures SiteAt(fi, fw, fps, k).did == k + 6
  {}

  lemma NoPacketPast(fw: seq<Word>, at: nat)
    ensures at + 40 >= |fw| ==> !Adf(fw, at)
  {}

  lemma {:induction false} LaterSites(fi: Format, fw: seq<Word>, fps: nat, k: nat)
    requires fi.WellFormed()
    ensures forall i :: 0 <= i < |SitesFrom(fi, fw, fps, k)| ==>
              SitesFrom(fi, fw, fps, k)[i].did >= k + 6 && SitesFrom(fi, fw, fps, k)[i].did < |fw|
    decreases |fw| - k
  {
    hide Format.WellFormed, Read;
    if k + 40 < |fw| { LaterSites(fi, fw, fps, k + 2); }
  }

  /** Every packet of a frame ends in the block of its line. */
  ghost predicate PacketsFit(fi: Format, fw: seq<Word>)
    requires fi.WellFormed()
  {
    forall k: nat :: k % 2 == 1 && Adf(fw, k) ==> EndsInBlock(fi, fw, k)
  }

  /** The sites found in a frame all fit exactly if its packets all end in their blocks. */
  lemma {:induction false} FoundFit(fi: Format, fw: seq<Word>, fps: nat, k: nat)
    requires fi.WellFormed() && k % 2 == 1
    ensures AllFit(fi, SitesFrom(fi, fw, fps, k))
            <==> forall j: nat :: k <= j && j % 2 == 1 && Adf(fw, j) ==> EndsInBlock(fi, fw, j)
    decreases |fw| - k
  {
    hide Format.WellFormed, SiteFits, SiteAt, EndsInBlock;
    if k + 40 < |fw| {
      FoundFit(fi, fw, fps, k + 2);
      var rest := SitesFrom(fi, fw, fps, k + 2);
      if Adf(fw, k) {
        SiteFitsExactly(fi, fw, fps, k);
        FitsBoth(fi, SiteAt(fi, fw, fps, k), rest);
      } else {
        assert [] + rest == rest;
      }
      hide Adf;
      assert forall j: nat :: k <= j && j % 2 == 1 <==> j == k || (k + 2 <= j && j % 2 == 1);
    }
  }

  lemma {:induction false} AllFoundFit(fi: Format, fw: seq<Word>, fps: nat)
    requires fi.WellFormed() && PacketsFit(fi, fw)
    ensures AllFit(fi, SitesFrom(fi, fw, fps, 1))
  {
    hide SitesFrom, AllFit;
    FoundFit(fi, fw, fps, 1);
    forall j: nat | 1 <= j && j % 2 == 1 && Adf(fw, j) ensures EndsInBlock(fi, fw, j) {}
  }

  lemma {:induction false} FitsBoth(fi: Format, site: Site, rest: seq<Site>)
    ensures AllFit(fi, [site] + rest) <==> SiteFits(fi, site) && AllFit(fi, rest)
  {
    hide SiteFits;
    var all := [site] + rest;
    assert all[0] == site && forall i :: 0 <= i < |rest| ==> all[i + 1] == rest[i];
  }

  /** A site whose line's CRC words lie in the frame. */
  predicate Checkable(fi: Format, fw: seq<Word>, site: Site) {
    1 <= site.line && BlockStart(fi, site.line) + Span(fi) < |fw|
  }

  /** The CRC model reproduces the frame: some line was checked and all that were hold. */
  ghost predicate Confirmed(fi: Format, fw: seq<Word>, sites: seq<Site>)
    requires fi.WellFormed() && fi.isHd
  {
    && (exists i :: 0 <= i < |sites| && Checkable(fi, fw, sites[i]))
    && (forall i :: 0 <= i < |sites| && Checkable(fi, fw, sites[i]) ==> LineCrc(fi, fw, sites[i].line))
  }

  // ---------------------------------------------------------------------------
  // Editing a stretch of a packed frame
  // ---------------------------------------------------------------------------

  lemma {:induction false} NarrowUnpack(b: seq<Byte>, i: nat)
    requires i < |Unpack(b)|
    ensures Unpack(b)[i] < 1024
  {
    if |b| >= 5 {
      var g, rest := UnpackGroup(b[..5]), Unpack(b[5..]);
      if i >= 4 { NarrowUnpack(b[5..], i - 4); } else { NarrowGroup(b[..5], i); }
    }
  }

  lemma {:induction false} NarrowGroup(b: seq<Byte>, i: nat)
    requires |b| == 5 && i < 4
    ensures UnpackGroup(b)[i] < 1024
  {
    hide BytesValue;
  }

  /** Unpacking a stretch of groups gives that stretch of the words. */
  lemma {:induction false} UnpackSlice(b: seq<Byte>, g: nat, n: nat, groups: nat)
    requires |b| == 5 * groups && g + n <= groups
    ensures |Unpack(b)| == 4 * groups
    ensures Unpack(b)[4 * g..4 * (g + n)] == Unpack(b[5 * g..5 * (g + n)])
    ensures Unpack(b)[..4 * g] == Unpack(b[..5 * g]) && Unpack(b)[4 * (g + n)..] == Unpack(b[5 * (g + n)..])
  {
    hide Unpack;
    var x, y, z := b[..5 * g], b[5 * g..5 * (g + n)], b[5 * (g + n)..];
    assert b == x + (y + z);
    UnpackAppend(x, y + z, g);
    UnpackAppend(y, z, n);
    UnpackLength(x, g);
    UnpackLength(y, n);
    UnpackLength(b, groups);
  }

  /** Packing words over a stretch of groups splices them into the unpacked frame. */
  lemma {:induction false} PackSplices(b: seq<Byte>, after: seq<Byte>, v: seq<Word>, g: nat, n: nat, groups: nat)
    requires |b| == 5 * groups && g + n <= groups && |v| == 4 * n
    requires forall i :: 0 <= i < |v| ==> v[i] < 1024
    requires after == b[..5 * g] + Pack(v) + b[5 * (g + n)..]
    ensures |after| == |b| && |Unpack(b)| == 4 * groups
    ensures Unpack(after) == Unpack(b)[..4 * g] + v + Unpack(b)[4 * (g + n)..]
  {
    hide Unpack, Pack;
    PackLength(v, n);
    UnpackSlice(b, g, n, groups);
    UnpackPack(v);
    assert TenBits(v) == v;
    assert after == b[..5 * g] + (Pack(v) + b[5 * (g + n)..]);
    UnpackAppend(b[..5 * g], Pack(v) + b[5 * (g + n)..], g);
    UnpackAppend(Pack(v), b[5 * (g + n)..], n);
  }

  // ---------------------------------------------------------------------------
  // Editing one block
  // ---------------------------------------------------------------------------

  /** Read every second word from `at` on. */
  method ReadStride(v: array<Word>, at: nat, count: nat) returns (w: seq<Word>)
    requires count > 0 ==> at + 2 * (count - 1) < v.Length
    ensures w == Crc.Gather(v[..], at, count, 2)
  {
    w := [];
    for i := 0 to count
      invariant w == Crc.Gather(v[..], at, i, 2)
    {
      w := w + [v[at + 2 * i]];
    }
  }

  method WriteStride(v: array<Word>, at: nat, w: seq<Word>)
    requires w != [] ==> at + 2 * (|w| - 1) < v.Length
    modifies v
    ensures v[..] == Scatter(old(v[..]), at, w)
  {
    for i := 0 to |w|
      invariant v[..] == Scatter(old(v[..]), at, w[..i])
    {
      assert w[..i + 1][..i] == w[..i];
      v[at + 2 * i] := w[i];
    }
    assert w[..|w|] == w;
  }

  method EditTime(v: array<Word>, rel: nat, t: Fields)
    requires rel + 36 < v.Length
    modifies v
    ensures v[..] == WithTime(old(v[..]), rel, t)
  {
    hide Written, Scatter;
    var words := ReadStride(v, rel + 6, 16);
    var flat := new Word[16](i requires 0 <= i < 16 => words[i]);
    assert flat[..] == words;
    WriteAtc(flat, t);
    WriteStride(v, rel + 6, flat[..]);
  }

  method EditChecksum(v: array<Word>, rel: nat, dc: nat)
    requires rel + 2 * (3 + dc) < v.Length
    modifies v
    ensures v[..] == WithChecksum(old(v[..]), rel, dc)
  {
    var pkt := ReadStride(v, rel, 3 + dc);
    var sum := Crc.AncChecksum(pkt);
    v[rel + 2 * (3 + dc)] := sum;
  }

  method EditCrcs(t: Crc.Tables, fi: Format, v: array<Word>)
    requires fi.WellFormed() && fi.isHd && v.Length == Span(fi) && t.Valid()
    modifies v
    ensures v[..] == Repaired(fi, old(v[..]))
  {
    hide Crc.Gather, Crc.Crc18, Crc.CrcToWords, Format.WellFormed, Crc.Tables.Valid;
    CoverFits(fi);
    ghost var before := v[..];
    var at := fi.LineWords() + 12;
    var crcC := Crc.Crc18Strided(t, v[..], Cover(fi), CrcCount(fi), 2, 0);
    Crc.CarriersAreLegal(crcC);
    var c := Crc.CrcToWords(crcC);
    v[at] := c.0;
    v[at + 2] := c.1;
    CrcLocal(fi, before, v[..], 1);
    var crcY := Crc.Crc18Strided(t, v[..], Cover(fi) + 1, CrcCount(fi), 2, 0);
    Crc.CarriersAreLegal(crcY);
    var y := Crc.CrcToWords(crcY);
    v[at + 1] := y.0;
    v[at + 3] := y.1;
  }

  lemma CoverFits(fi: Format)
    requires fi.WellFormed() && fi.isHd
    ensures Cover(fi) + 1 + (CrcCount(fi) - 1) * 2 == fi.LineWords() + 11
  {}

  method EditBlock(t: Crc.Tables, fi: Format, v: array<Word>, rel: nat, dc: nat, crcOk: bool, time: Fields)
    requires fi.WellFormed() && fi.isHd && v.Length == Span(fi) && Fits(fi, rel, dc) && t.Valid()
    modifies v
    ensures v[..] == PatchedBlock(fi, old(v[..]), rel, dc, crcOk, time)
  {
    hide WithTime, WithChecksum, Repaired, Format.WellFormed, Crc.Tables.Valid;
    EditTime(v, rel, time);
    EditChecksum(v, rel, dc);
    if crcOk { EditCrcs(t, fi, v); }
  }

  // ---------------------------------------------------------------------------
  // The rewriter
  // ---------------------------------------------------------------------------

  /** How many sites hold a packet when their turn comes. */
  function Hits(fi: Format, words: seq<Word>, sites: seq<Site>, crcOk: bool, tod: Fields, left: Fields): nat
    requires fi.WellFormed() && fi.isHd
  {
    if sites == [] then 0
    else
      var front := sites[..|sites| - 1];
      Hits(fi, words, front, crcOk, tod, left)
      + if Patchable(fi, PatchedAll(fi, words, front, crcOk, tod, left), sites[|sites| - 1]) then 1 else 0
  }

  class Rewriter {
    const fi: Format
    const frameBytes: nat
    const fps: nat
    const t: Crc.Tables
    ghost const groups: nat
    var sites: seq<Site>
    var crcOk: bool
    var classified: bool
    var missStreak: nat

    ghost predicate Valid()
      reads this, t, t.step, t.rev10
    {
      && fi.WellFormed() && fps > 0 && frameBytes == 5 * groups && groups == fi.totalLines * fi.LineGroups()
      && t.Valid() && (!fi.isHd ==> sites == [])
    }

    constructor (format: Format, bytes: nat, rate: nat, tables: Crc.Tables)
      requires format.WellFormed() && rate > 0 && tables.Valid()
      requires bytes == 5 * (format.totalLines * format.LineGroups())
      ensures Valid() && fi == format && frameBytes == bytes && fps == rate && t == tables
      ensures sites == [] && !crcOk && !classified && missStreak == 0
    {
      fi, frameBytes, fps, t := format, bytes, rate, tables;
      groups := format.totalLines * format.LineGroups();
      sites, crcOk, classified, missStreak := [], false, false, 0;
    }

    /** Unpack a block of the frame, edit it if the packet is still there, pack it back. */
    method EditBytes(frame: array<Byte>, from: nat, rel: nat, dc: nat, time: Fields, ghost g: nat, ghost n: nat)
        returns (hit: bool)
      requires Valid() && fi.isHd && frame.Length == 5 * groups && rel + 2 < Span(fi)
      requires from == 5 * g && Span(fi) == 4 * n && g + n <= groups && |Unpack(frame[..])| == 4 * groups
      requires var w := Unpack(frame[..]);
               w[4 * g + rel] % 256 == 0x60 && w[4 * g + rel + 2] % 256 == 0x60 ==> Fits(fi, rel, dc)
      modifies frame
      ensures |Unpack(old(frame[..]))| == 4 * groups
      ensures var w := Unpack(old(frame[..]));
              hit == (w[4 * g + rel] % 256 == 0x60 && w[4 * g + rel + 2] % 256 == 0x60)
      ensures hit ==> Fits(fi, rel, dc)
      ensures var w := Unpack(old(frame[..]));
              var block := w[4 * g..4 * (g + n)];
              && Unpack(frame[..])
                 == if hit then w[..4 * g] + PatchedBlock(fi, block, rel, dc, crcOk, time) + w[4 * (g + n)..] else w
      ensures !hit ==> frame[..] == old(frame[..])
    {
      hide Unpack, Pack, PatchedBlock, Fits, Crc.Tables.Valid, Format.WellFormed, Span;
      var span := Span(fi);
      ghost var before := frame[..];
      var v := new Word[span](i => 0);
      WholeRoom(span, n);
      FastUnpack10(frame[from..from + span / 4 * 5], span, v, n);
      UnpackSlice(before, g, n, groups);
      ghost var block := v[..];
      assert block == Unpack(before)[4 * g..4 * (g + n)];
      if v[rel] % 256 != 0x60 || v[rel + 2] % 256 != 0x60 { return false; }
      forall i | 0 <= i < |block| ensures block[i] < 1024 { NarrowUnpack(before[5 * g..5 * (g + n)], i); }
      EditBlock(t, fi, v, rel, dc, crcOk, time);
      forall i | 0 <= i < v.Length ensures v[i] < 1024 {
        PatchedNarrow(fi, block, rel, dc, crcOk, time, i);
      }
      FastPack10(v[..], frame, from, n);
      PackSplices(before, frame[..], v[..], g, n, groups);
      return true;
    }

    /** Patch one site of a frame in place. */
    method PatchOne(frame: array<Byte>, site: Site, time: Fields) returns (hit: bool)
      requires Valid() && fi.isHd && frame.Length == frameBytes && Safe(fi, Unpack(frame[..]), site)
      requires 1 <= site.line && BlockStart(fi, site.line) <= site.did
      modifies frame
      ensures |Unpack(old(frame[..]))| == 4 * groups
      ensures hit == Patchable(fi, Unpack(old(frame[..])), site)
      ensures Unpack(frame[..]) == PatchedSite(fi, Unpack(old(frame[..])), site, crcOk, time)
      ensures !hit ==> frame[..] == old(frame[..])
    {
      hide Unpack, PatchedBlock, Fits, Patchable, PatchedSite, Safe, Crc.Tables.Valid, Format.WellFormed;
      var w0 := (site.line - 1) * fi.LineWords();
      var span := fi.LineWords() + 16;
      ghost var g, n := GroupsOf(fi, site.line);
      UnpackLength(frame[..], groups);
      ghost var words := Unpack(frame[..]);
      BlockBytes(w0, span, g, n, groups);
      if w0 % 4 != 0 || (w0 + span) / 4 * 5 > frameBytes || site.did - w0 + 2 >= span {
        NotPatched(fi, words, site, crcOk, time);
        return false;
      }
      PatchedIs(fi, words, site, crcOk, time, g, n);
      hit := EditBytes(frame, w0 / 4 * 5, site.did - w0, site.dc, time, g, n);
    }

    /** Find every packet of a frame, and confirm the CRC model on the lines they are in. */
    method Discover(frame: array<Byte>)
      requires Valid() && frame.Length == frameBytes
      modifies `sites, `crcOk, `classified
      ensures Valid() && !classified
      ensures !fi.isHd ==> sites == [] && !crcOk
      ensures fi.isHd ==> sites == SitesFrom(fi, Unpack(frame[..]), fps, 1)
      ensures fi.isHd ==> crcOk == Confirmed(fi, Unpack(frame[..]), sites)
      ensures AllRead(4 * groups, sites) && AllPlaced(fi, sites)
    {
      sites, crcOk, classified := [], false, false;
      if !fi.isHd { return; }
      var fw := UnpackFrame(frame);
      var found := FindSites(fw);
      sites := found;
      var ok := Confirm(fw, found);
      crcOk := ok;
      FoundSites(fi, fw, fps, 1);
      FrameGroups(fi, groups);
    }

    method UnpackFrame(frame: array<Byte>) returns (fw: seq<Word>)
      requires Valid() && frame.Length == frameBytes
      ensures fw == Unpack(frame[..]) && |fw| == fi.LineWords() * fi.totalLines
    {
      hide Unpack, Crc.Tables.Valid, Format.WellFormed;
      FrameGroups(fi, groups);
      var count := fi.LineWords() * fi.totalLines;
      var words := new Word[count](i => 0);
      WholeRoom(count, groups);
      FastUnpack10(frame[..], count, words, groups);
      UnpackLength(frame[..], groups);
      fw := words[..];
      assert fw == Unpack(frame[..]) + [];
    }

    method FindSites(fw: seq<Word>) returns (found: seq<Site>)
      requires fi.WellFormed()
      ensures found == SitesFrom(fi, fw, fps, 1)
    {
      hide Format.WellFormed, Adf, SiteAt, SitesFrom;
      found := [];
      var k := 1;
      SitesStep(fi, fw, fps, k);
      while k + 40 < |fw|
        invariant found + SitesFrom(fi, fw, fps, k) == SitesFrom(fi, fw, fps, 1)
        invariant k + 40 >= |fw| ==> SitesFrom(fi, fw, fps, k) == []
        decreases |fw| - k
      {
        SitesStep(fi, fw, fps, k);
        SitesStep(fi, fw, fps, k + 2);
        if Adf(fw, k) { found := found + [SiteAt(fi, fw, fps, k)]; }
        k := k + 2;
      }
    }

    method Confirm(fw: seq<Word>, found: seq<Site>) returns (ok: bool)
      requires Valid() && fi.isHd
      ensures ok == Confirmed(fi, fw, found)
    {
      hide LineCrc, Checkable, Crc.Tables.Valid, Format.WellFormed;
      var checked, matched, i := 0, 0, 0;
      while i < |found|
        invariant i <= |found| && 0 <= matched <= checked
        invariant checked > 0 <==> exists j :: 0 <= j < i && Checkable(fi, fw, found[j])
        invariant matched == checked <==>
                    forall j :: 0 <= j < i && Checkable(fi, fw, found[j]) ==>
                      InFrame(fi, fw, found[j].line) && LineCrc(fi, fw, found[j].line)
      {
        if Checkable(fi, fw, found[i]) {
          CheckableInFrame(fi, fw, found[i]);
          var both := LineHolds(fw, found[i].line);
          checked := checked + 1;
          if both { matched := matched + 1; }
        }
        i := i + 1;
      }
      forall j | 0 <= j < |found| && Checkable(fi, fw, found[j]) ensures InFrame(fi, fw, found[j].line) {
        CheckableInFrame(fi, fw, found[j]);
      }
      ok := checked > 0 && matched == checked;
    }

    /** Tell the countdown by its running backwards: it reads less than at discovery. */
    method Classify(frame: array<Byte>)
      requires Valid() && frame.Length == frameBytes && AllRead(4 * groups, sites)
      modifies `sites, `classified
      ensures Valid() && classified && |sites| == |old(sites)| && |Unpack(frame[..])| == 4 * groups
      ensures sites == Told(old(sites), Unpack(frame[..]), fps)
    {
      hide Read, Unpack, Crc.Tables.Valid, Format.WellFormed;
      UnpackLength(frame[..], groups);
      classified := true;
      if sites == [] || !fi.isHd { return; }
      var fw := UnpackFrame(frame);
      var i := 0;
      while i < |sites|
        invariant i <= |sites| == |old(sites)| && Valid() && classified
        invariant forall j :: 0 <= j < i ==> sites[j] == ClassifiedAs(old(sites)[j], fw, fps)
        invariant forall j :: i <= j < |sites| ==> sites[j] == old(sites)[j]
      {
        var site := sites[i];
        sites := sites[i := site.(countdown := Read(fw, site.did, fps) < site.firstValue)];
        i := i + 1;
      }
      assert sites == Told(old(sites), fw, fps);
    }

    /** Patch every site of a frame in place with the time of day or the countdown.  When
      * 25 frames in a row hold no packet where one was, look for them again. */
    method Patch(frame: array<Byte>, tod: int, left: int) returns (patched: bool)
      requires Valid() && frame.Length == frameBytes && AllPlaced(fi, sites)
      requires fi.isHd ==> AllSafe(fi, Unpack(frame[..]), sites, crcOk, FramesToFields(tod, fps), FramesToFields(left, fps))
      modifies frame, `sites, `crcOk, `classified, `missStreak
      ensures Valid()
      ensures old(sites) == [] ==> !patched && frame[..] == old(frame[..]) && missStreak == old(missStreak)
      ensures old(sites) != [] ==>
                fi.isHd
                && var words, t1, t2 := Unpack(old(frame[..])), FramesToFields(tod, fps), FramesToFields(left, fps);
                   && patched == (Hits(fi, words, old(sites), old(crcOk), t1, t2) > 0)
                   && Unpack(frame[..]) == PatchedAll(fi, words, old(sites), old(crcOk), t1, t2)
      ensures patched ==> missStreak == 0
      ensures !patched ==> frame[..] == old(frame[..])
      ensures old(sites) != [] && !patched ==> missStreak == if old(missStreak) + 1 >= 25 then 0 else old(missStreak) + 1
      ensures patched || old(sites) == [] || old(missStreak) + 1 < 25 ==>
                sites == old(sites) && crcOk == old(crcOk) && classified == old(classified)
      ensures old(sites) != [] && !patched && old(missStreak) + 1 >= 25 ==>
                sites == SitesFrom(fi, Unpack(frame[..]), fps, 1) && crcOk == Confirmed(fi, Unpack(frame[..]), sites)
                && !classified
    {
      if sites == [] { return false; }
      var hit := PatchSites(frame, FramesToFields(tod, fps), FramesToFields(left, fps));
      if hit == 0 {
        missStreak := missStreak + 1;
        if missStreak >= 25 {
          missStreak := 0;
          Discover(frame);
        }
      } else {
        missStreak := 0;
      }
      patched := hit > 0;
    }

    method PatchSites(frame: array<Byte>, tod: Fields, left: Fields) returns (hit: nat)
      requires Valid() && fi.isHd && frame.Length == frameBytes && AllPlaced(fi, sites)
      requires AllSafe(fi, Unpack(frame[..]), sites, crcOk, tod, left)
      modifies frame
      ensures hit == Hits(fi, Unpack(old(frame[..])), sites, crcOk, tod, left)
      ensures Unpack(frame[..]) == PatchedAll(fi, Unpack(old(frame[..])), sites, crcOk, tod, left)
      ensures hit == 0 ==> frame[..] == old(frame[..])
    {
      hide Unpack, PatchedSite, Patchable, SiteFits, Crc.Tables.Valid, Format.WellFormed;
      hit := 0;
      ghost var words := Unpack(frame[..]);
      var i := 0;
      while i < |sites|
        invariant i <= |sites|
        invariant hit == Hits(fi, words, sites[..i], crcOk, tod, left)
        invariant Unpack(frame[..]) == PatchedAll(fi, words, sites[..i], crcOk, tod, left)
        invariant hit == 0 ==> frame[..] == old(frame[..])
      {
        assert sites[..i + 1][..i] == sites[..i];
        SafeInTurn(fi, words, sites, crcOk, tod, left, i);
        var site := sites[i];
        var h := PatchOne(frame, site, if site.countdown then left else tod);
        if h { hit := hit + 1; }
        i := i + 1;
      }
      assert sites[..i] == sites;
    }

    /** Find the packets of the first frame. */
    method Begin(frames: seq<seq<Byte>>)
      requires Valid() && frames != [] && forall x :: 0 <= x < |frames| ==> |frames[x]| == frameBytes
      modifies `sites, `crcOk, `classified
      ensures Valid() && if fi.isHd then InForce(frames, 0, 0) else sites == []
    {
      hide Unpack, Crc.Tables.Valid, Format.WellFormed, SitesAt, SitesFrom, Confirmed, AllRead, AllPlaced;
      var first := ArrayOf(frames[0]);
      Discover(first);
      if fi.isHd { FirstSites(fi, frames, fps); }
    }

    /** Rewrite a stream, frame after frame, as the engine does: find the packets of the first
      * frame, tell them apart at the second, patch every one, and find them again after 25
      * frames that had none of them.  Every frame goes out with all its sites patched, those
      * last found, and no packet is ever written past the block it was unpacked in.  They have
      * been told apart exactly if they are those of the first frame, from the second frame on. */
    method RewriteStream(frames: seq<seq<Byte>>, tod: seq<int>, left: seq<int>)
        returns (out: seq<seq<Byte>>, ghost told: seq<bool>)
      requires Valid() && missStreak == 0 && frames != [] && |tod| == |left| == |frames|
      requires forall x :: 0 <= x < |frames| ==> |frames[x]| == frameBytes
      requires fi.isHd ==> forall x :: 0 <= x < |frames| ==> PacketsFit(fi, Unpack(frames[x]))
      modifies this
      ensures Valid() && |out| == |told| == |frames|
      ensures !fi.isHd ==> out == frames
      ensures fi.isHd ==>
                forall i :: 0 <= i < |frames| ==>
                  Rewritten(fi, frames, fps, StateAt(fi, frames, fps, i).from, i, tod[i], left[i], out[i])
      ensures fi.isHd ==>
                forall i :: 0 <= i < |frames| ==> (told[i] <==> i >= 1 && StateAt(fi, frames, fps, i).from == 0)
      ensures fi.isHd ==> missStreak == StateAt(fi, frames, fps, |frames|).misses
    {
      hide Unpack, Rewritten, Crc.Tables.Valid, Format.WellFormed, PacketsFit, SitesAt, AllRead, AllPlaced, Missed;
      hide Searched, InForce;
      out, told := [], [];
      Begin(frames);
      ghost var j: nat := 0;
      var i := 0;
      while i < |frames|
        invariant i <= |frames| && |out| == |told| == i && Valid()
        invariant !fi.isHd ==> out == frames[..i] && sites == []
        invariant fi.isHd ==> Search(j, missStreak) == StateAt(fi, frames, fps, i) && InForce(frames, j, i)
        invariant fi.isHd ==>
                    forall k :: 0 <= k < i ==>
                      && Rewritten(fi, frames, fps, StateAt(fi, frames, fps, k).from, k, tod[k], left[k], out[k])
                      && (told[k] <==> k >= 1 && StateAt(fi, frames, fps, k).from == 0)
      {
        var buf := ArrayOf(frames[i]);
        ghost var was := false;
        if fi.isHd {
          j, was := RewriteOne(buf, frames, i, tod[i], left[i], j);
        } else {
          PassSd(buf, i, tod[i], left[i]);
        }
        out, told := out + [buf[..]], told + [was];
        i := i + 1;
      }
      assert frames[..i] == frames;
    }

    /** A standard-definition frame has no sites and goes through as it is. */
    method PassSd(buf: array<Byte>, i: nat, tod: int, left: int)
      requires Valid() && !fi.isHd && sites == [] && buf.Length == frameBytes
      modifies this, buf
      ensures Valid() && sites == [] && buf[..] == old(buf[..])
    {
      if !classified && i == 1 { Classify(buf); }
      var patched := Patch(buf, tod, left);
    }

    /** One frame of the stream, already in its buffer. */
    method RewriteOne(buf: array<Byte>, frames: seq<seq<Byte>>, i: nat, tod: int, left: int, ghost j: nat)
        returns (ghost next: nat, ghost told: bool)
      requires Valid() && fi.isHd && i < |frames| && j <= i && buf[..] == frames[i]
      requires forall x :: 0 <= x < |frames| ==> |frames[x]| == frameBytes && PacketsFit(fi, Unpack(frames[x]))
      requires InForce(frames, j, i) && missStreak <= i
      modifies this, buf
      ensures Valid() && next <= i && InForce(frames, next, i + 1)
      ensures Search(next, missStreak) == Searched(fi, frames, fps, Search(j, old(missStreak)), i)
      ensures told <==> i >= 1 && j == 0
      ensures Rewritten(fi, frames, fps, j, i, tod, left, buf[..])
    {
      hide Unpack, Crc.Tables.Valid, Format.WellFormed, PacketsFit, SitesAt, AllRead, AllPlaced, AllFit, AllSafe;
      hide Confirmed, PatchedAll, Hits, FramesToFields, Told, SitesFrom, NoneThere;
      SitesThen(fi, frames, fps, j, i, groups);
      if !classified && i == 1 { Classify(buf); }
      told := classified;
      assert sites == SitesAt(fi, frames, fps, j, i);
      FittingIsSafe(fi, Unpack(buf[..]), sites, crcOk, FramesToFields(tod, fps), FramesToFields(left, fps));
      NoSites(fi, Unpack(buf[..]), crcOk, FramesToFields(tod, fps), FramesToFields(left, fps));
      HitsNone(fi, Unpack(buf[..]), sites, crcOk, FramesToFields(tod, fps), FramesToFields(left, fps));
      ghost var again := sites != [] && missStreak + 1 >= 25;
      var patched := Patch(buf, tod, left);
      next := if again && !patched then i else j;
    }

    /** At the start of frame `i` the sites are those last found in frame `j`. */
    ghost predicate InForce(frames: seq<seq<Byte>>, j: nat, i: nat)
      requires fi.WellFormed() && fi.isHd && j < |frames| && i <= |frames|
      requires forall x :: 0 <= x < |frames| ==> |frames[x]| == frameBytes
      reads this
    {
      && sites == SitesAt(fi, frames, fps, j, if i == 0 then 0 else i - 1)
      && crcOk == Confirmed(fi, Unpack(frames[j]), SitesFrom(fi, Unpack(frames[j]), fps, 1))
      && (classified <==> j == 0 && i >= 2) && (j == 0 || j >= 24)
    }

    /** Recompute both streams' CRCs of a line and compare them with the frame's. */
    method LineHolds(fw: seq<Word>, line: nat) returns (both: bool)
      requires Valid() && fi.isHd && InFrame(fi, fw, line)
      ensures both == LineCrc(fi, fw, line)
    {
      hide StreamCrc, Crc.Gather, Crc.Crc18, Crc.CrcToWords, Format.WellFormed;
      CoverFits(fi);
      var cov, at := BlockStart(fi, line) + Cover(fi), BlockStart(fi, line) + fi.LineWords() + 12;
      var crc0 := Crc.Crc18Strided(t, fw, cov, CrcCount(fi), 2, 0);
      var crc1 := Crc.Crc18Strided(t, fw, cov + 1, CrcCount(fi), 2, 0);
      StreamCrcInFrame(fi, fw, line, 0);
      StreamCrcInFrame(fi, fw, line, 1);
      var c, y := Crc.CrcToWords(crc0), Crc.CrcToWords(crc1);
      both := fw[at] == c.0 && fw[at + 2] == c.1 && fw[at + 1] == y.0 && fw[at + 3] == y.1;
      assert fw[at] == Block(fi, fw, line)[fi.LineWords() + 12] && fw[at + 1] == Block(fi, fw, line)[fi.LineWords() + 13];
      assert fw[at + 2] == Block(fi, fw, line)[fi.LineWords() + 14] && fw[at + 3] == Block(fi, fw, line)[fi.LineWords() + 15];
    }
  }

  /** Where a block lies in the packed bytes. */
  lemma BlockBytes(w0: nat, span: nat, g: nat, n: nat, groups: nat)
    requires w0 == 4 * g && span == 4 * n
    ensures w0 % 4 == 0 && w0 / 4 * 5 == 5 * g
    ensures (w0 + span) / 4 * 5 > 5 * groups <==> g + n > groups
  {}

  lemma {:induction false} NotPatched(fi: Format, words: seq<Word>, site: Site, crcOk: bool, t: Fields)
    requires fi.WellFormed() && fi.isHd && 1 <= site.line && BlockStart(fi, site.line) <= site.did
    requires BlockStart(fi, site.line) + Span(fi) > |words| || site.did + 2 >= BlockStart(fi, site.line) + Span(fi)
    ensures !Patchable(fi, words, site) && PatchedSite(fi, words, site, crcOk, t) == words
  {
    hide BlockStart, Format.WellFormed;
  }

  /** A site patched, in packing groups. */
  lemma {:induction false} PatchedIs(fi: Format, words: seq<Word>, site: Site, crcOk: bool, t: Fields, g: nat, n: nat)
    requires fi.WellFormed() && fi.isHd && 1 <= site.line && BlockStart(fi, site.line) == 4 * g <= site.did
    requires Span(fi) == 4 * n && 4 * (g + n) <= |words| && site.did + 2 < 4 * (g + n) && Safe(fi, words, site)
    ensures var rel, hit := site.did - 4 * g, Patchable(fi, words, site);
            && hit == (words[4 * g + rel] % 256 == 0x60 && words[4 * g + rel + 2] % 256 == 0x60)
            && (hit ==> Fits(fi, rel, site.dc))
            && PatchedSite(fi, words, site, crcOk, t)
               == if hit then words[..4 * g] + PatchedBlock(fi, words[4 * g..4 * (g + n)], rel, site.dc, crcOk, t)
                                + words[4 * (g + n)..]
                  else words
  {
    hide BlockStart, Format.WellFormed, PatchedBlock, Fits;
  }

  lemma {:induction false} NoSites(fi: Format, words: seq<Word>, crcOk: bool, tod: Fields, left: Fields)
    requires fi.WellFormed() && fi.isHd
    ensures PatchedAll(fi, words, [], crcOk, tod, left) == words
  {}

  /** No site holds a packet when its turn comes exactly if none does to begin with. */
  lemma {:induction false} HitsNone(fi: Format, words: seq<Word>, sites: seq<Site>, crcOk: bool, tod: Fields, left: Fields)
    requires fi.WellFormed() && fi.isHd
    ensures Hits(fi, words, sites, crcOk, tod, left) == 0 <==> NoneThere(fi, words, sites)
    ensures NoneThere(fi, words, sites) ==> PatchedAll(fi, words, sites, crcOk, tod, left) == words
  {
    hide Patchable, Format.WellFormed;
    if sites != [] {
      HitsNone(fi, words, sites[..|sites| - 1], crcOk, tod, left);
    }
  }

  lemma {:induction false} SafeInTurn(fi: Format, words: seq<Word>, sites: seq<Site>, crcOk: bool,
                                      tod: Fields, left: Fields, i: nat)
    requires fi.WellFormed() && fi.isHd && AllSafe(fi, words, sites, crcOk, tod, left) && i < |sites|
    ensures Safe(fi, PatchedAll(fi, words, sites[..i], crcOk, tod, left), sites[i])
    decreases |sites|
  {
    hide Safe, PatchedAll, Format.WellFormed;
    if i < |sites| - 1 {
      var front := sites[..|sites| - 1];
      SafeInTurn(fi, words, front, crcOk, tod, left, i);
      assert front[..i] == sites[..i];
    }
  }

  /** A site's packet begins in the line it was found in. */
  predicate AllPlaced(fi: Format, sites: seq<Site>) {
    forall i :: 0 <= i < |sites| ==> 1 <= sites[i].line && BlockStart(fi, sites[i].line) <= sites[i].did
  }

  // ---------------------------------------------------------------------------
  // A whole stream
  // ---------------------------------------------------------------------------

  ghost predicate SameLengths(frames: seq<seq<Byte>>) {
    forall x, y :: 0 <= x < y < |frames| ==> |frames[x]| == |frames[y]|
  }

  /** The sites in force at frame `i` when they were last found in frame `j`: told apart
    * against frame 1 if they are the first ones found, and never again after. */
  function SitesAt(fi: Format, frames: seq<seq<Byte>>, fps: nat, j: nat, i: nat): (r: seq<Site>)
    requires fi.WellFormed() && j < |frames| && i < |frames|
    requires SameLengths(frames)
  {
    var sites := SitesFrom(fi, Unpack(frames[j]), fps, 1);
    if j == 0 && 1 <= i then
      FoundSites(fi, Unpack(frames[0]), fps, 1);
      SameUnpacked(frames[0], frames[1]);
      Told(sites, Unpack(frames[1]), fps)
    else sites
  }

  function Told(sites: seq<Site>, fw: seq<Word>, fps: nat): (r: seq<Site>)
    requires AllRead(|fw|, sites)
    ensures |r| == |sites|
  {
    seq(|sites|, i requires 0 <= i < |sites| => ClassifiedAs(sites[i], fw, fps))
  }

  /** What the rewriter goes by: the frame its sites were last found in, and how many frames
    * in a row up to now have held none of their packets. */
  datatype Search = Search(from: nat, misses: nat)

  /** None of the sites holds a packet. */
  ghost predicate NoneThere(fi: Format, words: seq<Word>, sites: seq<Site>) {
    forall x :: 0 <= x < |sites| ==> !Patchable(fi, words, sites[x])
  }

  /** Frame `i` holds none of the packets that were last found in frame `j`. */
  ghost predicate Missed(fi: Format, frames: seq<seq<Byte>>, fps: nat, j: nat, i: nat)
    requires fi.WellFormed() && j < |frames| && i < |frames| && SameLengths(frames)
  {
    SitesAt(fi, frames, fps, j, i) != [] && NoneThere(fi, Unpack(frames[i]), SitesAt(fi, frames, fps, j, i))
  }

  ghost function Searched(fi: Format, frames: seq<seq<Byte>>, fps: nat, was: Search, i: nat): Search
    requires fi.WellFormed() && was.from < |frames| && i < |frames| && SameLengths(frames)
  {
    if SitesAt(fi, frames, fps, was.from, i) == [] then was
    else if !Missed(fi, frames, fps, was.from, i) then was.(misses := 0)
    else if was.misses + 1 >= 25 then Search(i, 0)
    else was.(misses := was.misses + 1)
  }

  /** That state when frame `i` is about to be rewritten. */
  ghost function StateAt(fi: Format, frames: seq<seq<Byte>>, fps: nat, i: nat): (r: Search)
    requires fi.WellFormed() && frames != [] && i <= |frames| && SameLengths(frames)
    ensures r.from <= i && (i > 0 ==> r.from < i) && r.misses <= i && r.misses < 25
  {
    if i == 0 then Search(0, 0) else Searched(fi, frames, fps, StateAt(fi, frames, fps, i - 1), i - 1)
  }

  method ArrayOf(b: seq<Byte>) returns (a: array<Byte>)
    ensures fresh(a) && a[..] == b
  {
    a := new Byte[|b|](i requires 0 <= i < |b| => b[i]);
  }

  lemma {:induction false} FirstSites(fi: Format, frames: seq<seq<Byte>>, fps: nat)
    requires fi.WellFormed() && frames != []
    requires SameLengths(frames)
    ensures SitesAt(fi, frames, fps, 0, 0) == SitesFrom(fi, Unpack(frames[0]), fps, 1)
  {}

  /** From one frame to the next the sites in force change only by being told apart. */
  lemma {:induction false} SitesThen(fi: Format, frames: seq<seq<Byte>>, fps: nat, j: nat, i: nat, groups: nat)
    requires fi.WellFormed() && j <= i < |frames|
    requires forall x :: 0 <= x < |frames| ==> |frames[x]| == 5 * groups && PacketsFit(fi, Unpack(frames[x]))
    ensures var was, now := SitesAt(fi, frames, fps, j, if i == 0 then 0 else i - 1), SitesAt(fi, frames, fps, j, i);
            && AllFit(fi, now) && AllPlaced(fi, now)
            && (j == 0 && i == 1 ==>
                  |Unpack(frames[i])| == 4 * groups && AllRead(4 * groups, was) && now == Told(was, Unpack(frames[i]), fps))
            && (!(j == 0 && i == 1) ==> now == was)
    ensures SitesAt(fi, frames, fps, i, i) == SitesFrom(fi, Unpack(frames[i]), fps, 1) || i == 0
  {
    hide Unpack, SitesFrom, Told, AllFit, AllPlaced, AllRead, PacketsFit, Format.WellFormed;
    var sites := SitesFrom(fi, Unpack(frames[j]), fps, 1);
    UnpackLength(frames[j], groups);
    UnpackLength(frames[i], groups);
    FoundSites(fi, Unpack(frames[j]), fps, 1);
    AllFoundFit(fi, Unpack(frames[j]), fps);
    if j == 0 && 1 <= i {
      UnpackLength(frames[1], groups);
      ToldStayPut(fi, sites, Unpack(frames[1]), fps);
    }
  }

  lemma {:induction false} SameUnpacked(a: seq<Byte>, b: seq<Byte>)
    requires |a| == |b|
    ensures |Unpack(a)| == |Unpack(b)|
  {
    if |a| >= 5 { SameUnpacked(a[5..], b[5..]); }
  }

  /** Telling sites apart does not move them. */
  lemma {:induction false} ToldStayPut(fi: Format, sites: seq<Site>, fw: seq<Word>, fps: nat)
    requires AllRead(|fw|, sites)
    ensures AllFit(fi, Told(sites, fw, fps)) <==> AllFit(fi, sites)
    ensures AllPlaced(fi, Told(sites, fw, fps)) <==> AllPlaced(fi, sites)
  {
    var told := Told(sites, fw, fps);
    hide Read;
    assert forall i :: 0 <= i < |sites| ==> SiteFits(fi, told[i]) == SiteFits(fi, sites[i]);
    assert forall i :: 0 <= i < |sites| ==> told[i].line == sites[i].line && told[i].did == sites[i].did;
  }

  /** Frame `i` rewritten with the sites last found in frame `j`. */
  ghost predicate Rewritten(fi: Format, frames: seq<seq<Byte>>, fps: nat, j: nat, i: nat, tod: int, left: int, out: seq<Byte>)
    requires fi.WellFormed() && fi.isHd && fps > 0 && j <= i < |frames|
    requires SameLengths(frames)
  {
    var found := Unpack(frames[j]);
    Unpack(out) == PatchedAll(fi, Unpack(frames[i]), SitesAt(fi, frames, fps, j, i),
                              Confirmed(fi, found, SitesFrom(fi, found, fps, 1)),
                              FramesToFields(tod, fps), FramesToFields(left, fps))
  }

  /** So a stream's frames stay valid: every line CRC that held in a frame holds in what goes
    * out for it, if the model was confirmed on the frame its sites were found in. */
  lemma {:induction false} RewrittenKeepsCrcs(fi: Format, frames: seq<seq<Byte>>, fps: nat, j: nat, i: nat,
                                              tod: int, left: int, out: seq<Byte>, line: nat)
    requires fi.WellFormed() && fi.isHd && fps > 0 && j <= i < |frames|
    requires SameLengths(frames)
    requires Rewritten(fi, frames, fps, j, i, tod, left, out)
    requires AllInside(fi, SitesAt(fi, frames, fps, j, i))
    requires || Confirmed(fi, Unpack(frames[j]), SitesFrom(fi, Unpack(frames[j]), fps, 1))
             || forall x :: 0 <= x < |SitesAt(fi, frames, fps, j, i)| ==> InBlanking(fi, SitesAt(fi, frames, fps, j, i)[x])
    requires 1 <= line && BlockStart(fi, line) + Span(fi) <= |Unpack(frames[i])| && LineCrc(fi, Unpack(frames[i]), line)
    ensures BlockStart(fi, line) + Span(fi) <= |Unpack(out)| && LineCrc(fi, Unpack(out), line)
  {
    hide Unpack, SitesAt, Confirmed, PatchedAll, AllInside, InBlanking, LineCrc, BlockStart, Format.WellFormed;
    AllLineCrcsKept(fi, Unpack(frames[i]), SitesAt(fi, frames, fps, j, i),
                    Confirmed(fi, Unpack(frames[j]), SitesFrom(fi, Unpack(frames[j]), fps, 1)),
                    FramesToFields(tod, fps), FramesToFields(left, fps), line);
  }

  /** The site's digits read less in the second frame than where it was found. */
  ghost predicate RunsBack(frames: seq<seq<Byte>>, fps: nat, site: Site) {
    && 1 < |frames| && site.did + 34 < |Unpack(frames[1])|
    && Read(Unpack(frames[1]), site.did, fps) < site.firstValue
  }

  /** A site gets the countdown exactly if it runs backwards and is one of the first frame's,
    * from the second frame on: sites found again later are never told apart. */
  lemma {:induction false} NeverToldAgain(fi: Format, frames: seq<seq<Byte>>, fps: nat, i: nat, x: nat)
    requires fi.WellFormed() && i < |frames| && SameLengths(frames)
    requires x < |SitesAt(fi, frames, fps, StateAt(fi, frames, fps, i).from, i)|
    ensures var j := StateAt(fi, frames, fps, i).from;
            var site := SitesAt(fi, frames, fps, j, i)[x];
            site.countdown <==> i >= 1 && j == 0 && RunsBack(frames, fps, site)
  {
    hide Unpack, SitesFrom, Read, Missed;
    var j := StateAt(fi, frames, fps, i).from;
    FoundSites(fi, Unpack(frames[j]), fps, 1);
    if i >= 1 { SameUnpacked(frames[0], frames[1]); }
  }

  /** The count of misses is that of the frames just before, since the last search, that held
    * none of the packets. */
  lemma {:induction false} MissesAre(fi: Format, frames: seq<seq<Byte>>, fps: nat, i: nat, k: nat)
    requires fi.WellFormed() && i <= |frames| && SameLengths(frames) && k < i
    ensures var now, early := StateAt(fi, frames, fps, i), StateAt(fi, frames, fps, k);
            && (i - now.misses <= k ==> early.from == now.from && Missed(fi, frames, fps, now.from, k))
            && (k + now.misses + 1 == i ==> early.from != now.from || !Missed(fi, frames, fps, now.from, k))
  {
    hide SitesAt, SitesFrom, Unpack, Missed, Format.WellFormed;
    var was := StateAt(fi, frames, fps, i - 1);
    MissedIsSome(fi, frames, fps, was.from, i - 1);
    if k < i - 1 { MissesAre(fi, frames, fps, i - 1, k); }
    if was.misses > 0 {
      MissesAre(fi, frames, fps, i - 1, i - 2);
      MissedIsSome(fi, frames, fps, was.from, i - 2);
    }
  }

  /** Whether there are sites in force is settled when they are looked for. */
  lemma {:induction false} MissedIsSome(fi: Format, frames: seq<seq<Byte>>, fps: nat, j: nat, i: nat)
    requires fi.WellFormed() && j < |frames| && i < |frames| && SameLengths(frames)
    ensures SitesAt(fi, frames, fps, j, i) == [] <==> SitesFrom(fi, Unpack(frames[j]), fps, 1) == []
    ensures Missed(fi, frames, fps, j, i) ==> SitesFrom(fi, Unpack(frames[j]), fps, 1) != []
  {
    hide Unpack, SitesFrom;
  }

  /** The packets are looked for in frame `i` exactly if it is the 25th in a row, since they
    * were last found, to hold none of them. */
  lemma {:induction false} LooksAgain(fi: Format, frames: seq<seq<Byte>>, fps: nat, i: nat)
    requires fi.WellFormed() && 0 < i < |frames| && SameLengths(frames)
    ensures StateAt(fi, frames, fps, i + 1).from == i <==>
              i >= 24
              && forall k: nat :: i - 24 <= k <= i ==>
                   StateAt(fi, frames, fps, k).from == StateAt(fi, frames, fps, i).from
                   && Missed(fi, frames, fps, StateAt(fi, frames, fps, i).from, k)
  {
    hide SitesAt, SitesFrom, Unpack, Missed, Format.WellFormed;
    var now := StateAt(fi, frames, fps, i);
    MissedIsSome(fi, frames, fps, now.from, i);
    forall k: nat | i - now.misses <= k < i
      ensures StateAt(fi, frames, fps, k).from == now.from && Missed(fi, frames, fps, now.from, k)
    {
      MissesAre(fi, frames, fps, i, k);
    }
    if now.misses < 24 && i >= 24 { MissesAre(fi, frames, fps, i, i - now.misses - 1); }
  }

  /** A layout that moved: the first frame's packets are there in it and in none of the next
    * 25 frames.  They are looked for in the last of those, and the sites found then, whatever
    * they read, all get the time of day. */
  lemma {:induction false} LayoutMoves(fi: Format, frames: seq<seq<Byte>>, fps: nat)
    requires fi.WellFormed() && |frames| > 26 && SameLengths(frames)
    requires !NoneThere(fi, Unpack(frames[0]), SitesAt(fi, frames, fps, 0, 0))
    requires forall k :: 1 <= k <= 25 ==> NoneThere(fi, Unpack(frames[k]), SitesAt(fi, frames, fps, 0, k))
    ensures StateAt(fi, frames, fps, 26) == Search(25, 0)
    ensures SitesAt(fi, frames, fps, 25, 26) == SitesFrom(fi, Unpack(frames[25]), fps, 1)
    ensures forall x :: 0 <= x < |SitesAt(fi, frames, fps, 25, 26)| ==> !SitesAt(fi, frames, fps, 25, 26)[x].countdown
  {
    hide Unpack, SitesFrom, Patchable, Format.WellFormed;
    assert StateAt(fi, frames, fps, 0) == Search(0, 0);
    assert !Missed(fi, frames, fps, 0, 0);
    MissesFrom(fi, frames, fps, 25);
    assert Missed(fi, frames, fps, 0, 25);
    FoundSites(fi, Unpack(frames[25]), fps, 1);
  }

  lemma {:induction false} MissesFrom(fi: Format, frames: seq<seq<Byte>>, fps: nat, i: nat)
    requires fi.WellFormed() && 1 <= i <= 25 < |frames| && SameLengths(frames)
    requires !NoneThere(fi, Unpack(frames[0]), SitesAt(fi, frames, fps, 0, 0))
    requires forall k :: 1 <= k <= 25 ==> NoneThere(fi, Unpack(frames[k]), SitesAt(fi, frames, fps, 0, k))
    ensures StateAt(fi, frames, fps, i) == Search(0, i - 1) && Missed(fi, frames, fps, 0, i)
  {
    hide Unpack, SitesFrom, Patchable, Format.WellFormed;
    FoundSites(fi, Unpack(frames[0]), fps, 1);
    assert StateAt(fi, frames, fps, 0) == Search(0, 0);
    if i > 1 { MissesFrom(fi, frames, fps, i - 1); }
  }

  /** Once a search has found no packet none is made again: the frames go out as they are. */
  lemma {:induction false} StopsForGood(fi: Format, frames: seq<seq<Byte>>, fps: nat, i: nat, k: nat)
    requires fi.WellFormed() && i <= k <= |frames| && i < |frames| && SameLengths(frames)
    requires SitesFrom(fi, Unpack(frames[StateAt(fi, frames, fps, i).from]), fps, 1) == []
    ensures StateAt(fi, frames, fps, k) == StateAt(fi, frames, fps, i)
    ensures k < |frames| ==> SitesAt(fi, frames, fps, StateAt(fi, frames, fps, k).from, k) == []
  {
    hide Unpack, SitesFrom, Missed, Format.WellFormed;
    if k > i { StopsForGood(fi, frames, fps, i, k - 1); }
  }

  /** No word of the frame is like the first of a timecode packet's header. */
  ghost predicate Bare(fw: seq<Word>) {
    forall k :: 0 <= k < |fw| ==> fw[k] % 256 != 0x60
  }

  lemma {:induction false} BareHasNone(fi: Format, fw: seq<Word>, fps: nat, k: nat, sites: seq<Site>)
    requires fi.WellFormed() && Bare(fw)
    ensures SitesFrom(fi, fw, fps, k) == [] && NoneThere(fi, fw, sites)
    decreases |fw| - k
  {
    hide Format.WellFormed;
    SitesStep(fi, fw, fps, k);
    if k + 40 < |fw| { BareHasNone(fi, fw, fps, k + 2, sites); }
  }

  /** So a second of frames without packets ends the rewriting: from then on no frame is
    * touched, packets or not. */
  lemma {:induction false} LostInAGap(fi: Format, frames: seq<seq<Byte>>, fps: nat, k: nat,
                                      tod: int, left: int, out: seq<Byte>)
    requires fi.WellFormed() && fi.isHd && fps > 0 && 26 <= k < |frames| && SameLengths(frames)
    requires !NoneThere(fi, Unpack(frames[0]), SitesAt(fi, frames, fps, 0, 0))
    requires forall x :: 1 <= x <= 25 ==> Bare(Unpack(frames[x]))
    requires Rewritten(fi, frames, fps, StateAt(fi, frames, fps, k).from, k, tod, left, out)
    ensures Unpack(out) == Unpack(frames[k])
  {
    hide Unpack, SitesFrom, SitesAt, NoneThere, Bare, Confirmed, FramesToFields, Format.WellFormed;
    forall x | 1 <= x <= 25 ensures NoneThere(fi, Unpack(frames[x]), SitesAt(fi, frames, fps, 0, x)) {
      BareHasNone(fi, Unpack(frames[x]), fps, 1, SitesAt(fi, frames, fps, 0, x));
    }
    LayoutMoves(fi, frames, fps);
    BareHasNone(fi, Unpack(frames[25]), fps, 1, []);
    StopsForGood(fi, frames, fps, 26, k);
  }

  /** Such a stream: frames of one packet each, but for the 25 after the first, all zeros. */
  function Gapped(groups: nat, n: nat): (r: seq<seq<Byte>>)
    ensures |r| == n
  {
    seq(n, k => Pack(if 1 <= k <= 25 then seq(4 * groups, i => 0) else Lonely(4 * groups, 1)))
  }

  lemma {:induction false} GappedIsLost(fi: Format, fps: nat, n: nat, k: nat, tod: int, left: int, out: seq<Byte>)
    requires fi.WellFormed() && fi.isHd && fps > 0 && 26 <= k < n
    ensures var frames := Gapped(fi.totalLines * fi.LineGroups(), n);
            && SameLengths(frames) && PacketsFit(fi, Unpack(frames[k])) && Adf(Unpack(frames[k]), 1)
            && (Rewritten(fi, frames, fps, StateAt(fi, frames, fps, k).from, k, tod, left, out) ==>
                  Unpack(out) == Unpack(frames[k]))
  {
    var groups := fi.totalLines * fi.LineGroups();
    var frames := Gapped(groups, n);
    FrameGroups(fi, groups);
    LonelyIs(fi, fps, groups);
    GappedWords(groups, n);
    hide Pack, Unpack, SitesFrom, SiteAt, Lonely, Format.WellFormed, Patchable, Gapped;
    assert SitesAt(fi, frames, fps, 0, 0) == SitesFrom(fi, Lonely(4 * groups, 1), fps, 1);
    if Rewritten(fi, frames, fps, StateAt(fi, frames, fps, k).from, k, tod, left, out) {
      LostInAGap(fi, frames, fps, k, tod, left, out);
    }
  }

  lemma {:induction false} GappedWords(groups: nat, n: nat)
    ensures var frames := Gapped(groups, n);
            && SameLengths(frames)
            && (forall k :: 0 <= k < n && (k < 1 || 25 < k) ==> Unpack(frames[k]) == Lonely(4 * groups, 1))
            && (forall k :: 0 <= k < n && 1 <= k <= 25 ==> Bare(Unpack(frames[k])))
  {
    hide Pack, Unpack;
    var full, none: seq<Word> := Lonely(4 * groups, 1), seq(4 * groups, i => 0);
    PackLength(full, groups);
    PackLength(none, groups);
    UnpackPack(full);
    UnpackPack(none);
    assert TenBits(full) == full && TenBits(none) == none;
    assert forall k :: 0 <= k < n ==> Gapped(groups, n)[k] == Pack(if 1 <= k <= 25 then none else full);
  }

  /** The one packet is found, in the first line, fits its block and is there. */
  lemma {:induction false} LonelyIs(fi: Format, fps: nat, groups: nat)
    requires fi.WellFormed() && fi.LineWords() * fi.totalLines == 4 * groups
    ensures var fw := Lonely(4 * groups, 1);
            Adf(fw, 1) && PacketsFit(fi, fw) && !NoneThere(fi, fw, SitesFrom(fi, fw, fps, 1))
  {
    hide Read;
    var fw := Lonely(4 * groups, 1);
    assert fi.LineWords() * fi.totalLines >= fi.LineWords() * 16;
    var found := SitesFrom(fi, fw, fps, 1);
    assert found[0] == SiteAt(fi, fw, fps, 1);
    assert Patchable(fi, fw, found[0]);
    assert forall k: nat :: Adf(fw, k) ==> k == 1;
  }

  /** The digits of every site lie in the frame. */
  ghost predicate AllRead(total: nat, sites: seq<Site>) {
    forall i :: 0 <= i < |sites| ==> sites[i].did + 34 < total
  }

  function ClassifiedAs(site: Site, fw: seq<Word>, fps: nat): Site
    requires site.did + 34 < |fw|
  {
    site.(countdown := Read(fw, site.did, fps) < site.firstValue)
  }

  predicate InFrame(fi: Format, fw: seq<Word>, line: nat) {
    1 <= line && BlockStart(fi, line) + Span(fi) <= |fw|
  }

  lemma {:induction false} CheckableInFrame(fi: Format, fw: seq<Word>, site: Site)
    requires Checkable(fi, fw, site)
    ensures InFrame(fi, fw, site.line)
  {}

  lemma {:induction false} StreamCrcInFrame(fi: Format, fw: seq<Word>, line: nat, s: nat)
    requires fi.WellFormed() && fi.isHd && InFrame(fi, fw, line) && s < 2
    ensures var from := BlockStart(fi, line) + Cover(fi) + s;
            && from + (CrcCount(fi) - 1) * 2 < |fw|
            && StreamCrc(fi, Block(fi, fw, line), s) == Crc.CrcToWords(Crc.Crc18(Crc.Gather(fw, from, CrcCount(fi), 2), 0))
  {
    hide Crc.Gather, Crc.Crc18, Crc.CrcToWords, BlockStart;
    CoverFits(fi);
    var b, v := BlockStart(fi, line), Block(fi, fw, line);
    var from := Cover(fi) + s;
    forall k | 0 <= k < CrcCount(fi) ensures WordAt(fw, b + from + 2 * k) == WordAt(v, from + 2 * k) {
      assert v[from + 2 * k] == fw[b + from + 2 * k];
    }
    GatherSame(fw, b + from, v, from, CrcCount(fi));
  }

  lemma FrameGroups(fi: Format, groups: nat)
    requires fi.WellFormed() && groups == fi.totalLines * fi.LineGroups()
    ensures fi.LineWords() * fi.totalLines == 4 * groups
  {
    var g, n := fi.LineGroups(), fi.totalLines;
    assert fi.LineWords() == 4 * g;
    assert (4 * g) * n == 4 * (n * g);
  }

  /** A block in packing groups. */
  lemma GroupsOf(fi: Format, line: nat) returns (g: nat, n: nat)
    requires fi.WellFormed() && 1 <= line
    ensures (line - 1) * fi.LineWords() == 4 * g && Span(fi) == 4 * n
  {
    g, n := (line - 1) * fi.LineGroups(), fi.LineGroups() + 4;
  }
}
