/** Building rasters: a skeleton written once, active words and CRCs written for each
  * picture, and packing in chunks that may be taken in any order. */
module FrameBuilder {
  import opened Wrappers
  import opened SdiFormat
  import opened Bitpack
  import opened SdiLine
  import opened RasterRoundTrip
  import StreamParser
  import Crc

  // ---------------------------------------------------------------------------
  // Packing in chunks
  // ---------------------------------------------------------------------------

  /** Packing groups in a chunk of 65536 words. */
  const CHUNK_GROUPS: nat := 16384

  function ChunkStart(c: nat, groups: nat): nat {
    if c * CHUNK_GROUPS > groups then groups else c * CHUNK_GROUPS
  }

  /** Chunk `c` of the words is packed in its place. */
  ghost predicate ChunkDone(packed: seq<Byte>, words: seq<Word>, groups: nat, c: nat)
    requires |words| == 4 * groups && |packed| == 5 * groups
  {
    var s, e := ChunkStart(c, groups), ChunkStart(c + 1, groups);
    packed[5 * s..5 * e] == Pack(words[4 * s..4 * e])
  }

  lemma {:induction false} ChunkKept(before: seq<Byte>, after: seq<Byte>, words: seq<Word>, groups: nat, c: nat, d: nat)
    requires |words| == 4 * groups && |before| == |after| == 5 * groups && c != d
    requires ChunkDone(before, words, groups, c)
    requires var s, e := ChunkStart(d, groups), ChunkStart(d + 1, groups);
             after[..5 * s] == before[..5 * s] && after[5 * e..] == before[5 * e..]
    ensures ChunkDone(after, words, groups, c)
  {
    hide Pack;
    var s, e := ChunkStart(c, groups), ChunkStart(c + 1, groups);
    var x, y := ChunkStart(d, groups), ChunkStart(d + 1, groups);
    if c < d {
      assert e <= x;
      assert after[5 * s..5 * e] == after[..5 * x][5 * s..5 * e];
      assert before[5 * s..5 * e] == before[..5 * x][5 * s..5 * e];
    } else {
      assert y <= s;
      assert after[5 * s..5 * e] == after[5 * y..][5 * s - 5 * y..5 * e - 5 * y];
      assert before[5 * s..5 * e] == before[5 * y..][5 * s - 5 * y..5 * e - 5 * y];
    }
  }

  lemma {:induction false} ChunksMakeWhole(packed: seq<Byte>, words: seq<Word>, groups: nat, n: nat)
    requires |words| == 4 * groups && |packed| == 5 * groups
    requires forall c :: 0 <= c < n ==> ChunkDone(packed, words, groups, c)
    ensures packed[..5 * ChunkStart(n, groups)] == Pack(words[..4 * ChunkStart(n, groups)])
  {
    hide Pack, PackGroup;
    if n == 0 {
      PackNothing();
      assert words[..0] == [] && packed[..0] == [];
    } else {
      ChunksMakeWhole(packed, words, groups, n - 1);
      assert ChunkDone(packed, words, groups, n - 1);
      var s, e := ChunkStart(n - 1, groups), ChunkStart(n, groups);
      assert words[..4 * e] == words[..4 * s] + words[4 * s..4 * e];
      assert packed[..5 * e] == packed[..5 * s] + packed[5 * s..5 * e];
      PackAppend(words[..4 * s], words[4 * s..4 * e], s);
    }
  }

  lemma PackNothing()
    ensures Pack([]) == []
  {}

  /** Pack every chunk, in whatever order: the result is the whole packed at once. */
  method PackChunks(words: seq<Word>, packed: array<Byte>, order: seq<nat>, ghost groups: nat, ghost chunks: nat)
    requires |words| == 4 * groups && packed.Length == 5 * groups && groups <= chunks * CHUNK_GROUPS
    requires forall c :: 0 <= c < chunks ==> c in order
    requires forall j :: 0 <= j < |order| ==> order[j] * CHUNK_GROUPS <= groups
    modifies packed
    ensures packed[..] == Pack(words)
  {
    hide Pack, ChunkDone;
    var j := 0;
    while j < |order|
      invariant j <= |order|
      invariant forall i :: 0 <= i < j ==> ChunkDone(packed[..], words, groups, order[i])
    {
      PackChunk(words, packed, order[j], groups, order[..j]);
      j := j + 1;
    }
    forall c | 0 <= c < chunks ensures ChunkDone(packed[..], words, groups, c) {
      assert c in order;
      var i :| 0 <= i < |order| && order[i] == c;
    }
    ChunksMakeWhole(packed[..], words, groups, chunks);
    assert ChunkStart(chunks, groups) == groups;
    assert words[..4 * groups] == words && packed[..5 * groups] == packed[..];
  }

  method PackChunk(words: seq<Word>, packed: array<Byte>, c: nat, ghost groups: nat, ghost done: seq<nat>)
    requires |words| == 4 * groups && packed.Length == 5 * groups && c * CHUNK_GROUPS <= groups
    requires forall i :: 0 <= i < |done| ==> ChunkDone(packed[..], words, groups, done[i])
    modifies packed
    ensures ChunkDone(packed[..], words, groups, c)
    ensures forall i :: 0 <= i < |done| ==> ChunkDone(packed[..], words, groups, done[i])
  {
    hide Pack;
    var off := c * 65536;
    var end := if off + 65536 < |words| then off + 65536 else |words|;
    ghost var s, e := ChunkStart(c, groups), ChunkStart(c + 1, groups);
    assert off == 4 * s && end == 4 * e && off / 4 * 5 == 5 * s;
    ghost var before := packed[..];
    WholeRoom(end - off, e - s);
    FastPack10(words[off..end], packed, off / 4 * 5, e - s);
    PackLength(words[off..end], e - s);
    assert packed[..][5 * s..5 * e] == Pack(words[off..end]);
    forall i | 0 <= i < |done| ensures ChunkDone(packed[..], words, groups, done[i]) {
      if done[i] != c { ChunkKept(before, packed[..], words, groups, done[i], c); }
    }
  }

  // ---------------------------------------------------------------------------
  // The class
  // ---------------------------------------------------------------------------

  /** What construction leaves on a line for good: all but the active words of lines
    * with a row, and the CRC words. */
  ghost predicate Skeleton(fi: Format, ln: nat, l: seq<Word>)
    requires fi.WellFormed()
  {
    var aw, h := fi.activeWidth * 2, |Head(fi, ln)|;
    && |l| == fi.LineWords()
    && l[aw..aw + h] == Head(fi, ln)
    && l[aw + fi.PostActiveWords()..] == Blank(HancWords(fi)) + Sav(fi, ln)
    && (ActiveRowForLine(fi, ln) < 0 ==> l[..aw] == Blank(aw))
  }

  /** A line showing a picture, but for its CRC words. */
  ghost predicate Showing(fi: Format, pic: Picture, ln: nat, l: seq<Word>)
    requires fi.WellFormed() && FitsPicture(fi, pic)
  {
    Skeleton(fi, ln, l) && l[..fi.activeWidth * 2] == ActiveOf(fi, pic, ln)
  }

  /** The words of the first `n` lines of a frame. */
  function FrameWords(fi: Format, pic: Picture, n: nat): (r: seq<Word>)
    requires fi.WellFormed() && FitsPicture(fi, pic)
  {
    if n == 0 then [] else FrameWords(fi, pic, n - 1) + FrameLine(fi, pic, n)
  }

  lemma {:induction false} WithActiveKeeps(fi: Format, ln: nat, active: seq<Word>, l: seq<Word>)
    requires fi.WellFormed() && Skeleton(fi, ln, l) && |active| == fi.activeWidth * 2
    requires ActiveRowForLine(fi, ln) >= 0
    ensures var r := active + l[|active|..]; Skeleton(fi, ln, r) && r[..|active|] == active
  {
    hide Head, Sav, Blank, ActiveRowForLine;
    var r, aw, h, post := active + l[|active|..], |active|, |Head(fi, ln)|, fi.PostActiveWords();
    assert r[aw..aw + h] == l[aw..aw + h] && r[aw + post..] == l[aw + post..];
  }

  /** The active words of a line, overwritten where the picture has a row for it. */
  function WithActive(fi: Format, pic: Picture, ln: nat, l: seq<Word>): (r: seq<Word>)
    requires fi.WellFormed() && FitsPicture(fi, pic) && Skeleton(fi, ln, l)
    ensures Skeleton(fi, ln, r) && Showing(fi, pic, ln, r)
  {
    var row := ActiveRowForLine(fi, ln);
    if row < 0 || row >= fi.activeHeight then l
    else
      var r := StreamParser.ToWords(pic[row]) + l[fi.activeWidth * 2..];
      WithActiveKeeps(fi, ln, StreamParser.ToWords(pic[row]), l);
      r
  }

  /** Both streams' CRCs of one line, over its active words, EAV and line number. */
  method WithCrcs(t: Crc.Tables, fi: Format, ghost pic: Picture, ln: nat, l: seq<Word>) returns (r: seq<Word>)
    requires fi.WellFormed() && FitsPicture(fi, pic) && Showing(fi, pic, ln, l) && t.Valid()
    ensures r == FrameLine(fi, pic, ln) && Skeleton(fi, ln, r) && Showing(fi, pic, ln, r)
  {
    hide CrcWords, ActiveOf, Head, FrameLine, Crc.Tables.Valid, FitsPicture;
    var aw := fi.activeWidth * 2;
    r := l;
    if fi.isHd {
      var w := CrcsOn(t, fi, ActiveOf(fi, pic, ln) + Head(fi, ln), pic, ln, l);
      r := r[aw + 12 := w[0]][aw + 13 := w[1]][aw + 14 := w[2]][aw + 15 := w[3]];
    }
    LineFromParts(fi, pic, ln, l, r);
  }

  method CrcsOn(t: Crc.Tables, fi: Format, ghost covered: seq<Word>, ghost pic: Picture, ln: nat, l: seq<Word>)
      returns (w: seq<Word>)
    requires fi.WellFormed() && FitsPicture(fi, pic) && Showing(fi, pic, ln, l) && t.Valid() && fi.isHd
    requires covered == ActiveOf(fi, pic, ln) + Head(fi, ln)
    ensures w == CrcWords(fi, covered)
  {
    hide Showing, ActiveOf, Head, Crc.Gather, Crc.Crc18, Crc.CrcToWords, Crc.Tables.Valid, FitsPicture;
    LineIsWide(fi, pic, ln, l);
    CoveredIs(fi, pic, ln, l);
    var n := fi.activeWidth + 6;
    var crcC := Crc.Crc18Strided(t, l, 0, n, 2, 0);
    var crcY := Crc.Crc18Strided(t, l, 1, n, 2, 0);
    var wc, wy := Crc.CrcToWords(crcC), Crc.CrcToWords(crcY);
    Crc.CarriersAreLegal(crcC);
    Crc.CarriersAreLegal(crcY);
    w := [wc.0, wy.0, wc.1, wy.1];
  }

  lemma {:induction false} LineIsWide(fi: Format, pic: Picture, ln: nat, l: seq<Word>)
    requires fi.WellFormed() && FitsPicture(fi, pic) && Showing(fi, pic, ln, l)
    ensures |l| == fi.LineWords() >= fi.activeWidth * 2 + fi.PostActiveWords() + fi.SavWords()
  {}

  lemma {:induction false} GatherPrefix(a: seq<Word>, b: seq<Word>, from: nat, count: nat)
    requires a <= b && (count > 0 ==> from + (count - 1) * 2 < |a|)
    ensures Crc.Gather(a, from, count, 2) == Crc.Gather(b, from, count, 2)
  {
    if count > 0 { GatherPrefix(a, b, from, count - 1); }
  }

  lemma {:induction false} CoveredIs(fi: Format, pic: Picture, ln: nat, l: seq<Word>)
    requires fi.WellFormed() && FitsPicture(fi, pic) && Showing(fi, pic, ln, l) && fi.isHd
    ensures var covered := ActiveOf(fi, pic, ln) + Head(fi, ln);
            var n := fi.activeWidth + 6;
            && Crc.Gather(l, 0, n, 2) == Crc.Gather(covered, 0, n, 2)
            && Crc.Gather(l, 1, n, 2) == Crc.Gather(covered, 1, n, 2)
  {
    hide ActiveOf, Head, Sav;
    var covered := ActiveOf(fi, pic, ln) + Head(fi, ln);
    var aw := fi.activeWidth * 2;
    assert l[..aw + 12] == l[..aw] + l[aw..aw + 12] == covered;
    GatherPrefix(covered, l, 0, fi.activeWidth + 6);
    GatherPrefix(covered, l, 1, fi.activeWidth + 6);
  }

  lemma {:induction false} LineFromParts(fi: Format, pic: Picture, ln: nat, l: seq<Word>, r: seq<Word>)
    requires fi.WellFormed() && FitsPicture(fi, pic) && Showing(fi, pic, ln, l)
    requires var aw := fi.activeWidth * 2;
             if fi.isHd then
               var w := CrcWords(fi, ActiveOf(fi, pic, ln) + Head(fi, ln));
               r == l[aw + 12 := w[0]][aw + 13 := w[1]][aw + 14 := w[2]][aw + 15 := w[3]]
             else r == l
    ensures r == FrameLine(fi, pic, ln) && Showing(fi, pic, ln, r)
  {
    hide ActiveOf, Head, Sav, CrcWords, Blank, FitsPicture, FrameLine, Format.WellFormed;
    LineIsWide(fi, pic, ln, l);
    LineParts(fi, pic, ln);
    var aw, h, post := fi.activeWidth * 2, |Head(fi, ln)|, fi.PostActiveWords();
    var crcs := Crcs(fi, ln, ActiveOf(fi, pic, ln));
    if fi.isHd { FourUpdates(l, aw + 12, crcs); }
    Reassemble(l, r, aw, h, post, crcs);
  }

  lemma {:induction false} LineParts(fi: Format, pic: Picture, ln: nat)
    requires fi.WellFormed() && FitsPicture(fi, pic)
    ensures var active := ActiveOf(fi, pic, ln);
            FrameLine(fi, pic, ln)
            == active + (Head(fi, ln) + Crcs(fi, ln, active) + (Blank(HancWords(fi)) + Sav(fi, ln)))
  {
    hide ActiveOf, Head, Sav, Crcs, Blank, FitsPicture;
    var active := ActiveOf(fi, pic, ln);
    assert Head(fi, ln) + Crcs(fi, ln, active) + Blank(HancWords(fi)) + Sav(fi, ln)
           == Head(fi, ln) + Crcs(fi, ln, active) + (Blank(HancWords(fi)) + Sav(fi, ln));
  }

  lemma {:induction false} FourUpdates(l: seq<Word>, at: nat, w: seq<Word>)
    requires |w| == 4 && at + 4 <= |l|
    ensures l[at := w[0]][at + 1 := w[1]][at + 2 := w[2]][at + 3 := w[3]] == l[..at] + w + l[at + 4..]
  {}

  lemma {:induction false} Reassemble(l: seq<Word>, r: seq<Word>, aw: nat, h: nat, post: nat, crcs: seq<Word>)
    requires h + |crcs| == post && aw + post <= |l| && r == l[..aw + h] + crcs + l[aw + post..]
    ensures r == l[..aw] + (l[aw..aw + h] + crcs + l[aw + post..])
    ensures r[..aw] == l[..aw] && r[aw..aw + h] == l[aw..aw + h] && r[aw + post..] == l[aw + post..] && |r| == |l|
  {}

  lemma {:induction false} FlatIsFrame(fi: Format, pic: Picture, lines: seq<seq<Word>>, n: nat)
    requires fi.WellFormed() && FitsPicture(fi, pic) && |lines| == n
    requires forall i :: 0 <= i < n ==> lines[i] == FrameLine(fi, pic, i + 1)
    ensures Flat(lines) == FrameWords(fi, pic, n) && |Flat(lines)| == 4 * (n * fi.LineGroups())
  {
    hide FrameLine, FitsPicture;
    if n > 0 {
      FlatIsFrame(fi, pic, lines[..n - 1], n - 1);
      assert n * fi.LineGroups() == (n - 1) * fi.LineGroups() + fi.LineGroups();
    }
  }

  class SdiFrameBuilder {
    const fi: Format
    const lines: array<seq<Word>>
    const packed: array<Byte>

    ghost predicate Valid()
      reads this, lines
    {
      && fi.WellFormed() && lines.Length == fi.totalLines
      && packed.Length == 5 * (fi.totalLines * fi.LineGroups())
      && forall i :: 0 <= i < lines.Length ==> Skeleton(fi, i + 1, lines[i])
    }

    ghost predicate Shows(pic: Picture)
      requires Valid() && FitsPicture(fi, pic)
      reads this, lines
    {
      forall i :: 0 <= i < lines.Length ==> Showing(fi, pic, i + 1, lines[i])
    }

    constructor (format: Format)
      requires format.WellFormed()
      ensures Valid() && fi == format && fresh(lines) && fresh(packed)
    {
      fi := format;
      lines := new seq<Word>[format.totalLines](i => []);
      packed := new Byte[5 * (format.totalLines * format.LineGroups())](i => 0);
      new;
      BuildSkeleton();
    }

    method BuildSkeleton()
      requires fi.WellFormed() && lines.Length == fi.totalLines
      modifies lines
      ensures forall i :: 0 <= i < lines.Length ==> Skeleton(fi, i + 1, lines[i])
    {
      hide Skeleton, Format.WellFormed;
      var ln := 1;
      while ln <= fi.totalLines
        invariant 1 <= ln <= fi.totalLines + 1
        invariant forall i :: 0 <= i < ln - 1 ==> Skeleton(fi, i + 1, lines[i])
      {
        var l := SkeletonOf(fi, ln);
        lines[ln - 1] := l;
        ln := ln + 1;
      }
    }

    /** Write a picture's rows over the active words of the lines that carry them. */
    method WriteActiveUyvy8(pic: Picture)
      requires Valid() && FitsPicture(fi, pic)
      modifies lines
      ensures Valid() && Shows(pic)
    {
      hide Skeleton, Showing, Format.WellFormed, FitsPicture;
      var ln := 1;
      while ln <= fi.totalLines
        invariant 1 <= ln <= fi.totalLines + 1 && Valid()
        invariant forall i :: 0 <= i < ln - 1 ==> Showing(fi, pic, i + 1, lines[i])
        modifies lines
      {
        lines[ln - 1] := WithActive(fi, pic, ln, lines[ln - 1]);
        ln := ln + 1;
      }
    }

    /** Fill in the CRCs, line by line in whatever order, and pack, chunk by chunk in
      * whatever order.  Only the picture shown decides what comes out. */
    method Finish(t: Crc.Tables, ghost pic: Picture, lineOrder: seq<nat>, chunkOrder: seq<nat>, ghost chunks: nat)
      requires Valid() && FitsPicture(fi, pic) && Shows(pic) && t.Valid()
      requires forall ln :: 1 <= ln <= fi.totalLines ==> ln in lineOrder
      requires forall j :: 0 <= j < |lineOrder| ==> 1 <= lineOrder[j] <= fi.totalLines
      requires fi.totalLines * fi.LineGroups() <= chunks * CHUNK_GROUPS
      requires forall c :: 0 <= c < chunks ==> c in chunkOrder
      requires forall j :: 0 <= j < |chunkOrder| ==> chunkOrder[j] * CHUNK_GROUPS <= fi.totalLines * fi.LineGroups()
      modifies lines, packed
      ensures Valid() && Shows(pic)
      ensures packed[..] == Pack(FrameWords(fi, pic, fi.totalLines))
    {
      FillCrcs(t, pic, lineOrder);
      ghost var groups := fi.totalLines * fi.LineGroups();
      FlatIsFrame(fi, pic, lines[..], fi.totalLines);
      var words := Flat(lines[..]);
      PackChunks(words, packed, chunkOrder, groups, chunks);
    }

    method FillCrcs(t: Crc.Tables, ghost pic: Picture, lineOrder: seq<nat>)
      requires Valid() && FitsPicture(fi, pic) && Shows(pic) && t.Valid()
      requires forall ln :: 1 <= ln <= fi.totalLines ==> ln in lineOrder
      requires forall j :: 0 <= j < |lineOrder| ==> 1 <= lineOrder[j] <= fi.totalLines
      modifies lines
      ensures Valid() && Shows(pic)
      ensures forall i :: 0 <= i < lines.Length ==> lines[i] == FrameLine(fi, pic, i + 1)
    {
      hide Skeleton, Showing, Format.WellFormed, FitsPicture, FrameLine;
      var j := 0;
      while j < |lineOrder|
        invariant j <= |lineOrder| && Valid() && Shows(pic)
        invariant forall i :: 0 <= i < j ==> lines[lineOrder[i] - 1] == FrameLine(fi, pic, lineOrder[i])
        modifies lines
      {
        var ln := lineOrder[j];
        assert Showing(fi, pic, ln, lines[ln - 1]);
        var l := WithCrcs(t, fi, pic, ln, lines[ln - 1]);
        lines[ln - 1] := l;
        j := j + 1;
      }
      forall i | 0 <= i < lines.Length ensures lines[i] == FrameLine(fi, pic, i + 1) {
        assert i + 1 in lineOrder;
        var k :| 0 <= k < |lineOrder| && lineOrder[k] == i + 1;
      }
    }
  }

  /** Blanking, timing references, line number and zeroed CRC words of one line. */
  method SkeletonOf(fi: Format, ln: nat) returns (l: seq<Word>)
    requires fi.WellFormed() && 1 <= ln <= fi.totalLines
    ensures Skeleton(fi, ln, l)
  {
    hide Skeleton, Xyz, LineNumberWords, LineFlagsOf, Blank;
    var aw := fi.activeWidth * 2;
    var lf, nf := LineFlagsOf(fi, ln), LineFlagsOf(fi, ln % fi.totalLines + 1);
    var eav, sav := Xyz(lf.f, lf.v, true), Xyz(nf.f, nf.v, false);
    WrapIsNext(fi, ln);
    l := Blank(aw);
    if fi.isHd {
      var n := LineNumberWords(ln);
      var head, tail := [SYNC, SYNC, 0, 0, 0, 0, eav, eav] + [n.0, n.0, n.1, n.1], [SYNC, SYNC, 0, 0, 0, 0, sav, sav];
      l := l + head + [0, 0, 0, 0] + Blank(HancWords(fi)) + tail;
      PartsAreSkeleton(fi, ln, head, [0, 0, 0, 0], tail);
    } else {
      var head, tail := [SYNC, 0, 0, eav], [SYNC, 0, 0, sav];
      l := l + head + [] + Blank(HancWords(fi)) + tail;
      PartsAreSkeleton(fi, ln, head, [], tail);
    }
  }

  lemma WrapIsNext(fi: Format, ln: nat)
    requires 1 <= ln <= fi.totalLines
    ensures ln % fi.totalLines + 1 == Next(fi, ln)
  {}

  lemma {:induction false} PartsAreSkeleton(fi: Format, ln: nat, head: seq<Word>, crcs: seq<Word>, tail: seq<Word>)
    requires fi.WellFormed() && head == Head(fi, ln) && tail == Sav(fi, ln) && |head| + |crcs| == fi.PostActiveWords()
    ensures Skeleton(fi, ln, Blank(fi.activeWidth * 2) + head + crcs + Blank(HancWords(fi)) + tail)
  {
    hide Head, Sav, Blank;
    var aw := fi.activeWidth * 2;
    var l := Blank(aw) + head + crcs + Blank(HancWords(fi)) + tail;
    assert l[..aw] == Blank(aw) && l[aw..aw + |head|] == head;
    assert l[aw + fi.PostActiveWords()..] == Blank(HancWords(fi)) + tail;
  }

  // ---------------------------------------------------------------------------
  // A run of frames is the stream the parser is proved on
  // ---------------------------------------------------------------------------

  lemma {:induction false} StreamOfFrame(fi: Format, pics: seq<Picture>, k: nat, n: nat)
    requires RasterRoundTrip.Valid(fi, pics) && k < |pics| && n <= fi.totalLines
    ensures StreamFrom(fi, pics, k, 1) == FrameWords(fi, pics[k], n) + StreamFrom(fi, pics, k, n + 1)
  {
    hide FrameLine, FitsPicture;
    if n > 0 {
      StreamOfFrame(fi, pics, k, n - 1);
      assert StreamFrom(fi, pics, k, n) == FrameLine(fi, pics[k], n) + StreamFrom(fi, pics, k, n + 1);
    } else {
      assert FrameWords(fi, pics[k], 0) == [];
    }
  }

  /** The packed frames of pictures from the `k`-th on, one after another. */
  ghost function PackedFrames(fi: Format, pics: seq<Picture>, k: nat): seq<Byte>
    requires RasterRoundTrip.Valid(fi, pics)
    decreases |pics| - k
  {
    if k >= |pics| then [] else Pack(FrameWords(fi, pics[k], fi.totalLines)) + PackedFrames(fi, pics, k + 1)
  }

  lemma {:induction false} FrameGroups(fi: Format, pic: Picture, n: nat) returns (groups: nat)
    requires fi.WellFormed() && FitsPicture(fi, pic)
    ensures |FrameWords(fi, pic, n)| == 4 * groups
  {
    hide FrameLine, FitsPicture;
    groups := 0;
    if n > 0 {
      groups := FrameGroups(fi, pic, n - 1);
      groups := groups + fi.LineGroups();
    }
  }

  /** What the builder puts out for a run of pictures is exactly the wire. */
  lemma {:induction false} FramesAreWire(fi: Format, pics: seq<Picture>, k: nat)
    requires RasterRoundTrip.Valid(fi, pics) && k <= |pics|
    ensures PackedFrames(fi, pics, k) == Pack(StreamFrom(fi, pics, k, 1))
    decreases |pics| - k
  {
    hide FrameLine, FitsPicture, Pack, FrameWords;
    if k < |pics| {
      FramesAreWire(fi, pics, k + 1);
      StreamOfFrame(fi, pics, k, fi.totalLines);
      var groups := FrameGroups(fi, pics[k], fi.totalLines);
      assert StreamFrom(fi, pics, k, fi.totalLines + 1) == StreamFrom(fi, pics, k + 1, 1);
      PackAppend(FrameWords(fi, pics[k], fi.totalLines), StreamFrom(fi, pics, k + 1, 1), groups);
    } else {
      PackNothing();
    }
  }

  /** Build, pack, split, parse: every picture of a run comes back, in order, from any
    * splitting of the builder's output. */
  lemma {:induction false} PicturesComeBack(fi: Format, pics: seq<Picture>, chunks: seq<seq<Byte>>)
    requires RasterRoundTrip.Valid(fi, pics) && pics != []
    requires Joined(chunks) == PackedFrames(fi, pics, 0)
    ensures FeedMany(fi, StreamParser.NewParser(fi), chunks).raster.out == ShownUpTo(fi, pics, |pics|)
  {
    hide Pack, PackedFrames, FeedMany, ShownUpTo;
    FramesAreWire(fi, pics, 0);
    BuildPackParse(fi, pics, chunks);
  }
}
