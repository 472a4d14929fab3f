/** The frames that the builder makes, read word by word: where the timing references of a
  * line lie and what they say, its number, its samples and its CRCs. */
module RasterWords {
  import opened Wrappers
  import opened SdiFormat
  import opened Bitpack
  import opened SdiLine
  import opened RasterRoundTrip
  import opened FrameBuilder
  import Crc
  import Atc
  import Gf2

  /** The words of the packed frame that shows a picture. */
  function Words(fi: Format, pic: Picture): seq<Word>
    requires fi.WellFormed() && FitsPicture(fi, pic)
  {
    Unpack(Pack(FrameWords(fi, pic, fi.totalLines)))
  }

  /** Where line `ln` begins. */
  function Start(fi: Format, ln: nat): nat
    requires 1 <= ln
  {
    (ln - 1) * fi.LineWords()
  }

  lemma StartNext(fi: Format, ln: nat)
    requires 1 <= ln
    ensures Start(fi, ln + 1) == Start(fi, ln) + fi.LineWords() && Start(fi, 1) == 0
  {}

  lemma {:induction false} FrameWordsNarrow(fi: Format, pic: Picture, n: nat)
    requires fi.WellFormed() && FitsPicture(fi, pic)
    ensures |FrameWords(fi, pic, n)| == Start(fi, n + 1) && Narrow(FrameWords(fi, pic, n))
  {
    hide FrameLine, FitsPicture, Narrow, Start, Format.WellFormed;
    StartNext(fi, n + 1);
    if n > 0 {
      FrameWordsNarrow(fi, pic, n - 1);
      StartNext(fi, n);
      LineIsNarrow(fi, pic, n);
      NarrowJoin(FrameWords(fi, pic, n - 1), FrameLine(fi, pic, n));
    } else {
      NothingNarrow();
    }
  }

  lemma NothingNarrow()
    ensures Narrow([])
  {}

  lemma {:induction false} LineIsNarrow(fi: Format, pic: Picture, ln: nat)
    requires fi.WellFormed() && FitsPicture(fi, pic)
    ensures Narrow(FrameLine(fi, pic, ln))
  {
    hide Line, Narrow;
    LineNarrow(fi, ln, ActiveOf(fi, pic, ln));
  }

  lemma {:induction false} LineInFrame(fi: Format, pic: Picture, n: nat, ln: nat)
    requires fi.WellFormed() && FitsPicture(fi, pic) && 1 <= ln <= n
    ensures Start(fi, ln) + fi.LineWords() <= |FrameWords(fi, pic, n)|
    ensures FrameWords(fi, pic, n)[Start(fi, ln)..Start(fi, ln) + fi.LineWords()] == FrameLine(fi, pic, ln)
  {
    hide FrameLine, FitsPicture, Start, Narrow, Format.WellFormed;
    FrameWordsNarrow(fi, pic, n);
    FrameWordsNarrow(fi, pic, n - 1);
    if ln < n { LineInFrame(fi, pic, n - 1, ln); }
  }

  lemma {:induction false} WordsAre(fi: Format, pic: Picture)
    requires fi.WellFormed() && FitsPicture(fi, pic)
    ensures Words(fi, pic) == FrameWords(fi, pic, fi.totalLines)
  {
    var all := FrameWords(fi, pic, fi.totalLines);
    hide FrameWords, Pack, Unpack, Narrow, FitsPicture;
    FrameWordsNarrow(fi, pic, fi.totalLines);
    FourthPart(fi, |all|);
    UnpackPack(all);
    NarrowTen(all);
  }

  lemma FourthPart(fi: Format, total: nat)
    requires fi.WellFormed() && total == Start(fi, fi.totalLines + 1)
    ensures total % 4 == 0
  {
    Fours(fi.totalLines, fi.LineGroups());
  }

  lemma Fours(n: nat, g: nat)
    ensures n * (4 * g) % 4 == 0
  {
    assert n * (4 * g) == 4 * (n * g);
  }

  /** The words of one line of the frame. */
  function LineOf(fi: Format, pic: Picture, ln: nat): (r: seq<Word>)
    requires fi.WellFormed() && FitsPicture(fi, pic) && 1 <= ln <= fi.totalLines
    ensures |r| == fi.LineWords()
  {
    WordsAre(fi, pic);
    LineInFrame(fi, pic, fi.totalLines, ln);
    hide Words, FrameWords, FrameLine, Start, Format.WellFormed, FitsPicture;
    Words(fi, pic)[Start(fi, ln)..Start(fi, ln) + fi.LineWords()]
  }

  /** The parts of a line and where they lie. */
  ghost predicate Parts(fi: Format, ln: nat, active: seq<Word>, l: seq<Word>)
    requires fi.WellFormed() && |active| == fi.activeWidth * 2
  {
    var aw, h := fi.activeWidth * 2, |Head(fi, ln)|;
    && |l| == fi.LineWords() && l[..aw] == active && l[aw..aw + h] == Head(fi, ln)
    && l[aw + h..aw + fi.PostActiveWords()] == Crcs(fi, ln, active)
    && l[aw + fi.PostActiveWords()..fi.LineWords() - fi.SavWords()] == Blank(HancWords(fi))
    && l[fi.LineWords() - fi.SavWords()..] == Sav(fi, ln)
  }

  lemma {:induction false} LineHasParts(fi: Format, pic: Picture, ln: nat)
    requires fi.WellFormed() && FitsPicture(fi, pic) && 1 <= ln <= fi.totalLines
    ensures Parts(fi, ln, ActiveOf(fi, pic, ln), LineOf(fi, pic, ln))
  {
    hide FrameWords, Words, ActiveOf, Head, Sav, Crcs, Blank, FitsPicture, Start;
    WordsAre(fi, pic);
    LineInFrame(fi, pic, fi.totalLines, ln);
    PartsOfLine(fi, ln, ActiveOf(fi, pic, ln));
  }

  lemma {:induction false} PartsOfLine(fi: Format, ln: nat, active: seq<Word>)
    requires fi.WellFormed() && |active| == fi.activeWidth * 2
    ensures Parts(fi, ln, active, Line(fi, ln, active))
  {
    hide Head, Sav, Crcs, Blank;
  }

  // ---------------------------------------------------------------------------
  // Timing references
  // ---------------------------------------------------------------------------

  /** What the flags say in the SAV at the end of line `l` and in the EAV of line `m`, which is
    * number `next`: the same F and V; V clear exactly if the line carries a row; and F set in
    * the second field, that of the odd rows. */
  predicate FlagsSay(fi: Format, l: seq<Word>, m: seq<Word>, next: nat)
    requires fi.WellFormed() && |l| == |m| == fi.LineWords()
  {
    var sav, eav := l[fi.LineWords() - 1], m[fi.activeWidth * 2 + if fi.isHd then 6 else 3];
    var row := ActiveRowForLine(fi, next);
    && XyzTop(sav) && !XyzH(sav) && XyzTop(eav) && XyzH(eav)
    && XyzF(sav) == XyzF(eav) && XyzV(sav) == XyzV(eav)
    && (!XyzV(sav) <==> row >= 0)
    && (row >= 0 ==> (XyzF(sav) <==> fi.scan != Progressive && row % 2 == 1))
    && (XyzF(sav) <==> fi.scan != Progressive && (next >= fi.field2StartLine || next < fi.field1StartLine))
  }

  /** The SAV that introduces the active words of a line ends the line before, or for the first
    * line the last, and has the F and V of the EAV that ends them. */
  lemma {:induction false} TimingFlags(fi: Format, pic: Picture, ln: nat)
    requires fi.WellFormed() && FitsPicture(fi, pic) && 1 <= ln <= fi.totalLines
    ensures var next := ln % fi.totalLines + 1;
            FlagsSay(fi, LineOf(fi, pic, ln), LineOf(fi, pic, next), next)
  {
    hide LineOf, ActiveOf, FitsPicture, Parts, FlagsSay;
    var next := ln % fi.totalLines + 1;
    LineHasParts(fi, pic, ln);
    LineHasParts(fi, pic, next);
    PartsSayFlags(fi, ln, ActiveOf(fi, pic, ln), LineOf(fi, pic, ln), ActiveOf(fi, pic, next), LineOf(fi, pic, next));
  }

  lemma {:induction false} PartsSayFlags(fi: Format, ln: nat, active: seq<Word>, l: seq<Word>, active': seq<Word>, m: seq<Word>)
    requires fi.WellFormed() && 1 <= ln <= fi.totalLines && |active| == |active'| == fi.activeWidth * 2
    requires Parts(fi, ln, active, l) && Parts(fi, ln % fi.totalLines + 1, active', m)
    ensures FlagsSay(fi, l, m, ln % fi.totalLines + 1)
  {
    hide Head, Sav, Crcs, XyzTop, XyzH, XyzF, XyzV, Xyz, LineFlagsOf, ActiveRowForLine;
    var next, lw, aw := ln % fi.totalLines + 1, fi.LineWords(), fi.activeWidth * 2;
    var x := if fi.isHd then 6 else 3;
    SavIs(fi, ln);
    HeadIs(fi, next);
    FlagsAre(fi, next);
    assert l[lw - 1] == l[lw - fi.SavWords()..][fi.SavWords() - 1];
    assert m[aw + x] == m[aw..aw + |Head(fi, next)|][x];
  }

  lemma SavIs(fi: Format, ln: nat)
    requires 1 <= ln <= fi.totalLines
    ensures var nf := LineFlagsOf(fi, ln % fi.totalLines + 1);
            Sav(fi, ln)[fi.SavWords() - 1] == Xyz(nf.f, nf.v, false)
  {
    WrapIsNext(fi, ln);
    hide LineFlagsOf, Xyz;
  }

  lemma HeadIs(fi: Format, ln: nat)
    ensures var lf := LineFlagsOf(fi, ln);
            Head(fi, ln)[if fi.isHd then 6 else 3] == Xyz(lf.f, lf.v, true)
  {}

  lemma FlagsAre(fi: Format, ln: nat)
    requires fi.WellFormed() && 1 <= ln <= fi.totalLines
    ensures var lf, row := LineFlagsOf(fi, ln), ActiveRowForLine(fi, ln);
            && XyzF(Xyz(lf.f, lf.v, true)) == XyzF(Xyz(lf.f, lf.v, false)) == lf.f
            && XyzV(Xyz(lf.f, lf.v, true)) == XyzV(Xyz(lf.f, lf.v, false)) == lf.v
            && XyzTop(Xyz(lf.f, lf.v, true)) && XyzTop(Xyz(lf.f, lf.v, false))
            && XyzH(Xyz(lf.f, lf.v, true)) && !XyzH(Xyz(lf.f, lf.v, false))
            && (!lf.v <==> row >= 0) && (row >= 0 ==> (lf.f <==> fi.scan != Progressive && row % 2 == 1))
            && (lf.f <==> fi.scan != Progressive && (ln >= fi.field2StartLine || ln < fi.field1StartLine))
  {
    var lf := LineFlagsOf(fi, ln);
    XyzReads(lf.f, lf.v, true);
    XyzReads(lf.f, lf.v, false);
    hide Xyz, XyzF, XyzV, XyzH, XyzTop;
  }

  /** The other words of a line's timing references, and on HD its number behind the EAV, in
    * both streams: seven bits and then four, over a tenth bit that is not the ninth. */
  predicate SyncAndNumber(fi: Format, l: seq<Word>, ln: nat)
    requires fi.WellFormed() && |l| == fi.LineWords()
  {
    var aw, lw := fi.activeWidth * 2, fi.LineWords();
    if fi.isHd then
      && l[aw..aw + 6] == l[lw - 8..lw - 2] == [0x3FF, 0x3FF, 0, 0, 0, 0]
      && l[aw + 6] == l[aw + 7] && l[lw - 2] == l[lw - 1]
      && l[aw + 8] == l[aw + 9] && l[aw + 10] == l[aw + 11]
      && l[aw + 8] / 4 % 128 + 128 * (l[aw + 10] / 4 % 16) == ln
      && l[aw + 8] / 512 + l[aw + 8] / 256 % 2 == 1 && l[aw + 10] / 512 + l[aw + 10] / 256 % 2 == 1
    else l[aw..aw + 3] == l[lw - 4..lw - 1] == [0x3FF, 0, 0]
  }

  lemma {:induction false} LinesAreMarked(fi: Format, pic: Picture, ln: nat)
    requires fi.WellFormed() && FitsPicture(fi, pic) && 1 <= ln <= fi.totalLines
    ensures SyncAndNumber(fi, LineOf(fi, pic, ln), ln)
  {
    hide LineOf, ActiveOf, FitsPicture, Parts, SyncAndNumber;
    LineHasParts(fi, pic, ln);
    PartsAreMarked(fi, ln, ActiveOf(fi, pic, ln), LineOf(fi, pic, ln));
  }

  lemma {:induction false} PartsAreMarked(fi: Format, ln: nat, active: seq<Word>, l: seq<Word>)
    requires fi.WellFormed() && 1 <= ln <= fi.totalLines && |active| == fi.activeWidth * 2 && Parts(fi, ln, active, l)
    ensures SyncAndNumber(fi, l, ln)
  {
    hide Head, Sav, Crcs, Blank, LineNumberWords;
    var aw, lw, sw, h := fi.activeWidth * 2, fi.LineWords(), fi.SavWords(), |Head(fi, ln)|;
    LineNumberRoundTrip(ln);
    NumberWords(ln);
    PartsAre(fi, ln);
    if fi.isHd {
      assert l[aw + 6] == l[aw..aw + h][6] && l[aw + 7] == l[aw..aw + h][7];
      assert l[aw + 8] == l[aw..aw + h][8] && l[aw + 9] == l[aw..aw + h][9];
      assert l[aw + 10] == l[aw..aw + h][10] && l[aw + 11] == l[aw..aw + h][11];
      assert l[lw - 2] == l[lw - sw..][6] && l[lw - 1] == l[lw - sw..][7];
      assert l[aw..aw + 6] == l[aw..aw + h][..6];
      assert l[lw - 8..lw - 2] == l[lw - sw..][..6];
    } else {
      assert l[aw..aw + 3] == l[aw..aw + h][..3];
      assert l[lw - 4..lw - 1] == l[lw - sw..][..3];
    }
  }

  lemma NumberWords(ln: nat)
    requires ln < 2048
    ensures var n := LineNumberWords(ln);
            n.0 / 512 + n.0 / 256 % 2 == 1 && n.1 / 512 + n.1 / 256 % 2 == 1
  {}

  lemma PartsAre(fi: Format, ln: nat)
    ensures var h, s, n := Head(fi, ln), Sav(fi, ln), LineNumberWords(ln);
            if fi.isHd then
              && h[..6] == s[..6] == [0x3FF, 0x3FF, 0, 0, 0, 0] && h[6] == h[7] && s[6] == s[7]
              && h[8] == h[9] == n.0 && h[10] == h[11] == n.1
            else h[..3] == s[..3] == [0x3FF, 0, 0]
  {
    hide Xyz, LineNumberWords, LineFlagsOf;
  }

  // ---------------------------------------------------------------------------
  // Samples and CRCs
  // ---------------------------------------------------------------------------

  /** The samples of a line: those of its row, four to a step, or blanking. */
  predicate SamplesAre(fi: Format, pic: Picture, l: seq<Word>, ln: nat)
    requires fi.WellFormed() && FitsPicture(fi, pic) && |l| == fi.LineWords()
  {
    var row := ActiveRowForLine(fi, ln);
    forall i :: 0 <= i < fi.activeWidth * 2 ==>
      if 0 <= row < fi.activeHeight then l[i] / 4 == pic[row][i] && l[i] % 4 == 0
      else l[i] == if i % 2 == 1 then 0x040 else 0x200
  }

  lemma {:induction false} LinesShowRows(fi: Format, pic: Picture, ln: nat)
    requires fi.WellFormed() && FitsPicture(fi, pic) && 1 <= ln <= fi.totalLines
    ensures SamplesAre(fi, pic, LineOf(fi, pic, ln), ln)
  {
    hide LineOf, SamplesAre, ActiveOf, Head, Sav, Crcs, FitsPicture;
    LineHasParts(fi, pic, ln);
    ActiveShows(fi, pic, LineOf(fi, pic, ln), ln);
  }

  lemma {:induction false} ActiveShows(fi: Format, pic: Picture, l: seq<Word>, ln: nat)
    requires fi.WellFormed() && FitsPicture(fi, pic) && |l| == fi.LineWords()
    requires l[..fi.activeWidth * 2] == ActiveOf(fi, pic, ln)
    ensures SamplesAre(fi, pic, l, ln)
  {
    hide ActiveRowForLine;
    assert forall i :: 0 <= i < fi.activeWidth * 2 ==> l[i] == ActiveOf(fi, pic, ln)[i];
  }

  /** Between its header and the SAV a line is blank. */
  predicate BlankBetween(fi: Format, l: seq<Word>)
    requires fi.WellFormed() && |l| == fi.LineWords()
  {
    forall i :: fi.activeWidth * 2 + (if fi.isHd then 16 else 4) <= i < fi.LineWords() - (if fi.isHd then 8 else 4) ==>
      l[i] == if i % 2 == 1 then 0x040 else 0x200
  }

  lemma {:induction false} LinesAreBlankBetween(fi: Format, pic: Picture, ln: nat)
    requires fi.WellFormed() && FitsPicture(fi, pic) && 1 <= ln <= fi.totalLines
    ensures BlankBetween(fi, LineOf(fi, pic, ln))
  {
    hide LineOf, ActiveOf, FitsPicture, Parts, BlankBetween;
    LineHasParts(fi, pic, ln);
    PartsAreBlankBetween(fi, ln, ActiveOf(fi, pic, ln), LineOf(fi, pic, ln));
  }

  lemma {:induction false} PartsAreBlankBetween(fi: Format, ln: nat, active: seq<Word>, l: seq<Word>)
    requires fi.WellFormed() && |active| == fi.activeWidth * 2 && Parts(fi, ln, active, l)
    ensures BlankBetween(fi, l)
  {
    hide Head, Sav, Crcs;
    var from, to := fi.activeWidth * 2 + fi.PostActiveWords(), fi.LineWords() - fi.SavWords();
    forall i | from <= i < to ensures l[i] == if i % 2 == 1 then 0x040 else 0x200 {
      assert l[i] == l[from..to][i - from];
      assert (i - from) % 2 == i % 2;
    }
  }

  /** The words a stream's CRC is over, every other one of the active words, the EAV and the
    * number, and the carriers behind them. */
  function Covered(fi: Format, l: seq<Word>, s: nat): seq<Word>
    requires fi.WellFormed() && fi.isHd && |l| == fi.LineWords() && s < 2
  {
    Crc.Gather(l, s, fi.activeWidth + 6, 2)
  }

  function Carriers(fi: Format, l: seq<Word>, s: nat): (Word, Word)
    requires fi.WellFormed() && fi.isHd && |l| == fi.LineWords() && s < 2
  {
    (l[fi.activeWidth * 2 + 12 + s], l[fi.activeWidth * 2 + 14 + s])
  }

  lemma {:induction false} PartsCarry(fi: Format, ln: nat, active: seq<Word>, l: seq<Word>, s: nat)
    requires fi.WellFormed() && fi.isHd && |active| == fi.activeWidth * 2 && Parts(fi, ln, active, l) && s < 2
    ensures Carriers(fi, l, s) == Crc.CrcToWords(Crc.Crc18(Covered(fi, l, s), 0))
  {
    hide Head, Sav, Crc.Gather, Crc.Crc18, Crc.CrcToWords;
    var aw, covered := fi.activeWidth * 2, active + Head(fi, ln);
    assert l[..aw + 12] == l[..aw] + l[aw..aw + 12] == covered;
    GatherPrefix(covered, l, s, fi.activeWidth + 6);
    assert Crcs(fi, ln, active) == CrcWords(fi, covered);
    assert l[aw + 12 + s] == l[aw + 12..aw + 16][s] && l[aw + 14 + s] == l[aw + 12..aw + 16][2 + s];
  }

  /** The bits of the words, shifted up by eighteen, leave `r` on division by
    * x^18 + x^5 + x^4 + 1. */
  ghost predicate DividesTo(g: seq<Word>, r: nat) {
    Gf2.Remains(Crc.Polynomial(Crc.Sent(g)) * Gf2.Pow2(18),
                Gf2.Pow2(18) + Gf2.Pow2(5) + Gf2.Pow2(4) + Gf2.Pow2(0), 18, r)
  }

  /** On HD each line carries for either stream, behind its number, what remains of the stream's
    * words on that division. */
  lemma {:induction false} LineCarriesRemainder(fi: Format, pic: Picture, ln: nat, s: nat)
    requires fi.WellFormed() && FitsPicture(fi, pic) && fi.isHd && 1 <= ln <= fi.totalLines && s < 2
    ensures var c := Carriers(fi, LineOf(fi, pic, ln), s);
            DividesTo(Covered(fi, LineOf(fi, pic, ln), s), Crc.CrcFromWords(c.0, c.1))
  {
    hide LineOf, ActiveOf, Parts, Covered, Carriers, FitsPicture, Crc.Crc18, Crc.CrcToWords, Crc.CrcFromWords;
    hide DividesTo;
    LineHasParts(fi, pic, ln);
    PartsCarry(fi, ln, ActiveOf(fi, pic, ln), LineOf(fi, pic, ln), s);
    RemainderRead(Covered(fi, LineOf(fi, pic, ln), s));
  }

  lemma {:induction false} RemainderRead(g: seq<Word>)
    ensures var c := Crc.CrcToWords(Crc.Crc18(g, 0));
            DividesTo(g, Crc.CrcFromWords(c.0, c.1))
  {
    hide Crc.Crc18, Crc.CrcToWords, Crc.CrcFromWords, Crc.Polynomial, Gf2.Remains, Gf2.Pow2, Gf2.Xor;
    Crc.CrcRange(g, 0);
    Crc.CarrierRoundTrip(Crc.Crc18(g, 0));
    Crc.Powers();
    Crc.CrcIsRemainder(g, 0, Crc.Crc18(g, 0));
    assert 0 * Gf2.Pow2(10 * |g|) == 0;
    Crc.XorZero(Crc.Polynomial(Crc.Sent(g)) * Gf2.Pow2(18));
  }

  /** So the rewriter finds its CRC model confirmed on every line of such a frame: in the block
    * that begins with a line's EAV both CRCs of the active words that follow hold. */
  lemma {:induction false} RewriterConfirms(fi: Format, pic: Picture, ln: nat)
    requires fi.WellFormed() && FitsPicture(fi, pic) && fi.isHd && 1 <= ln < fi.totalLines
    ensures BlockHolds(fi, LineOf(fi, pic, ln), LineOf(fi, pic, ln + 1))
  {
    hide LineOf, ActiveOf, FitsPicture, Covered, Carriers, BlockHolds, Parts;
    hide Crc.Crc18, Crc.CrcToWords;
    LineHasParts(fi, pic, ln + 1);
    PartsCarry(fi, ln + 1, ActiveOf(fi, pic, ln + 1), LineOf(fi, pic, ln + 1), 0);
    PartsCarry(fi, ln + 1, ActiveOf(fi, pic, ln + 1), LineOf(fi, pic, ln + 1), 1);
    CarriersHold(fi, LineOf(fi, pic, ln), LineOf(fi, pic, ln + 1));
  }

  /** The block of a line as the rewriter unpacks it: from its EAV to the CRCs behind the next. */
  ghost predicate BlockHolds(fi: Format, l: seq<Word>, m: seq<Word>)
    requires fi.WellFormed() && fi.isHd && |l| == |m| == fi.LineWords()
  {
    Atc.BlockCrc(fi, l[fi.activeWidth * 2..] + m[..fi.activeWidth * 2 + 16])
  }

  lemma {:induction false} CarriersHold(fi: Format, l: seq<Word>, m: seq<Word>)
    requires fi.WellFormed() && fi.isHd && |l| == |m| == fi.LineWords()
    requires Carriers(fi, m, 0) == Crc.CrcToWords(Crc.Crc18(Covered(fi, m, 0), 0))
    requires Carriers(fi, m, 1) == Crc.CrcToWords(Crc.Crc18(Covered(fi, m, 1), 0))
    ensures BlockHolds(fi, l, m)
  {
    hide Crc.Gather, Crc.Crc18, Crc.CrcToWords;
    var aw, n, c := fi.activeWidth * 2, fi.activeWidth + 6, Atc.Cover(fi);
    var v := l[aw..] + m[..aw + 16];
    assert v[c + (aw + 12)] == m[aw + 12] && v[c + (aw + 13)] == m[aw + 13];
    assert v[c + (aw + 14)] == m[aw + 14] && v[c + (aw + 15)] == m[aw + 15];
    ShiftedGather(fi, l, m, 0);
    ShiftedGather(fi, l, m, 1);
  }

  lemma {:induction false} ShiftedGather(fi: Format, l: seq<Word>, m: seq<Word>, s: nat)
    requires fi.WellFormed() && fi.isHd && |l| == |m| == fi.LineWords() && s < 2
    ensures Crc.Gather(l[fi.activeWidth * 2..] + m[..fi.activeWidth * 2 + 16], Atc.Cover(fi) + s, fi.activeWidth + 6, 2)
            == Covered(fi, m, s)
  {
    hide Crc.Gather;
    var aw, n, c := fi.activeWidth * 2, fi.activeWidth + 6, Atc.Cover(fi);
    var v := l[aw..] + m[..aw + 16];
    forall k | 0 <= k < n ensures Atc.WordAt(v, c + s + 2 * k) == Atc.WordAt(m, s + 2 * k) {
      assert v[c + (s + 2 * k)] == m[s + 2 * k];
    }
    Atc.GatherSame(v, c + s, m, s, n);
  }
}
