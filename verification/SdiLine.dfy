/** The words of one raster line: timing references, line numbers, CRCs and blanking,
  * and where in a line a timing reference can be seen. */
module SdiLine {
  import opened Wrappers
  import opened SdiFormat
  import Crc
  import Gf2

  const SYNC: Word := 0x3FF
  const BLANK_LUMA: Word := 0x040
  const BLANK_CHROMA: Word := 0x200

  function B(b: bool): nat { if b then 1 else 0 }

  /** The fourth word of a timing reference: F, V and H with their protection bits. */
  function Xyz(f: bool, v: bool, h: bool): (w: Word)
    ensures w < 1024 && w != SYNC
  {
    512 + B(f) * 256 + B(v) * 128 + B(h) * 64
      + B(v != h) * 32 + B(f != h) * 16 + B(f != v) * 8 + B((f != v) != h) * 4
  }

  predicate XyzTop(w: Word) { w / 512 % 2 == 1 }
  predicate XyzF(w: Word) { w / 256 % 2 == 1 }
  predicate XyzV(w: Word) { w / 128 % 2 == 1 }
  predicate XyzH(w: Word) { w / 64 % 2 == 1 }

  lemma XyzReads(f: bool, v: bool, h: bool)
    ensures var w := Xyz(f, v, h); XyzTop(w) && XyzF(w) == f && XyzV(w) == v && XyzH(w) == h
  {}

  /** The same word bit by bit, b9 first. */
  function XyzBits(f: bool, v: bool, h: bool): (r: seq<bool>)
    ensures |r| == 10
  {
    [true, f, v, h, v != h, f != h, f != v, (f != v) != h, false, false]
  }

  lemma BitsAreXyz(f: bool, v: bool, h: bool)
    ensures var b, w := XyzBits(f, v, h), Xyz(f, v, h);
            w == B(b[0]) * 512 + B(b[1]) * 256 + B(b[2]) * 128 + B(b[3]) * 64 + B(b[4]) * 32
                 + B(b[5]) * 16 + B(b[6]) * 8 + B(b[7]) * 4 + B(b[8]) * 2 + B(b[9])
  {
    hide B;
    assert B(true) == 1 && B(false) == 0 by { Bs(); }
  }

  lemma Bs()
    ensures B(true) == 1 && B(false) == 0
  {}

  /** Which bits the flags of any word are: 9, 8, 7 and 6. */
  lemma FlagBits(w: Word)
    ensures (XyzTop(w) <==> w % 1024 >= 512) && (XyzF(w) <==> w % 512 >= 256)
    ensures (XyzV(w) <==> w % 256 >= 128) && (XyzH(w) <==> w % 128 >= 64)
  {
    hide XyzTop, XyzF, XyzV, XyzH;
    TopBit(w);
    FieldBit(w);
    BlankingBit(w);
    EndBit(w);
  }

  lemma TopBit(w: Word)
    ensures XyzTop(w) <==> w % 1024 >= 512
  {
    HalfOf(w, 2 * (w / 1024), w % 1024, 512);
  }

  lemma FieldBit(w: Word)
    ensures XyzF(w) <==> w % 512 >= 256
  {
    HalfOf(w, 2 * (w / 512), w % 512, 256);
  }

  lemma BlankingBit(w: Word)
    ensures XyzV(w) <==> w % 256 >= 128
  {
    HalfOf(w, 2 * (w / 256), w % 256, 128);
  }

  lemma EndBit(w: Word)
    ensures XyzH(w) <==> w % 128 >= 64
  {
    HalfOf(w, 2 * (w / 128), w % 128, 64);
  }

  lemma HalfOf(w: nat, q: nat, r: nat, h: nat)
    requires w == q * h + r && r < 2 * h && q % 2 == 0
    ensures w / h % 2 == 1 <==> r >= h
  {
    if r >= h {
      assert (q + 1) * h == q * h + h;
      Gf2.DivModUnique(w, q + 1, r - h, h);
    } else {
      Gf2.DivModUnique(w, q, r, h);
    }
  }

  /** The eight timing words of SMPTE ST 292. */
  lemma TimingWords()
    ensures Xyz(false, false, false) == 0x200 && Xyz(false, false, true) == 0x274
    ensures Xyz(false, true, false) == 0x2AC && Xyz(false, true, true) == 0x2D8
    ensures Xyz(true, false, false) == 0x31C && Xyz(true, false, true) == 0x368
    ensures Xyz(true, true, false) == 0x3B0 && Xyz(true, true, true) == 0x3C4
  {}

  /** In how many of the ten places two words differ. */
  function Differ(a: seq<bool>, b: seq<bool>): nat
    requires |a| == |b| == 10
  {
    B(a[0] != b[0]) + B(a[1] != b[1]) + B(a[2] != b[2]) + B(a[3] != b[3]) + B(a[4] != b[4])
    + B(a[5] != b[5]) + B(a[6] != b[6]) + B(a[7] != b[7]) + B(a[8] != b[8]) + B(a[9] != b[9])
  }

  /** The protection bits keep any two different timing words four bits apart, so one
    * flipped bit is always traced back and two are always noticed. */
  lemma TimingWordsFarApart(f: bool, v: bool, h: bool, g: bool, w: bool, i: bool)
    requires !(f == g && v == w && h == i)
    ensures Differ(XyzBits(f, v, h), XyzBits(g, w, i)) >= 4
  {
    FourOfSeven(f != g, v != w, h != i);
  }

  lemma FourOfSeven(f: bool, v: bool, h: bool)
    requires f || v || h
    ensures B(f) + B(v) + B(h) + B(v != h) + B(f != h) + B(f != v) + B((f != v) != h) == 4
  {}

  /** The two line-number words: eleven bits, with b9 the complement of b8. */
  function LineNumberWords(line: nat): (r: (Word, Word))
    ensures r.0 < SYNC && r.1 < SYNC
  {
    var l := line % 2048;
    var a := l % 128 * 4;
    (if a / 256 % 2 == 0 then a + 512 else a, l / 128 * 4 + 512)
  }

  function LineNumberFrom(ln0: Word, ln1: Word): nat { ln0 / 4 % 128 + ln1 / 4 % 16 * 128 }

  lemma SevenBits(a: nat)
    requires a < 128
    ensures (a * 4) / 4 % 128 == a && (a * 4 + 512) / 4 % 128 == a
  {}

  lemma FourBits(b: nat)
    requires b < 16
    ensures (b * 4 + 512) / 4 % 16 == b
  {}

  lemma LineNumberRoundTrip(line: nat)
    requires line < 2048
    ensures var w := LineNumberWords(line); LineNumberFrom(w.0, w.1) == line
  {
    var a, b := line % 128, line / 128;
    assert line == b * 128 + a && b < 16 && line % 2048 == line;
    SevenBits(a);
    FourBits(b);
  }

  // ---------------------------------------------------------------------------
  // The parts of a line
  // ---------------------------------------------------------------------------

  function Blank(n: nat): (r: seq<Word>)
    ensures |r| == n
  {
    seq(n, i => if i % 2 == 1 then BLANK_LUMA else BLANK_CHROMA)
  }

  /** A timing reference, doubled over both streams on HD. */
  function Reference(fi: Format, xyz: Word): (r: seq<Word>)
    ensures |r| == fi.SavWords()
  {
    if fi.isHd then [SYNC, SYNC, 0, 0, 0, 0, xyz, xyz] else [SYNC, 0, 0, xyz]
  }

  /** The EAV of a line and, on HD, its number in both streams. */
  function Head(fi: Format, ln: nat): (r: seq<Word>)
    ensures |r| == if fi.isHd then 12 else 4
  {
    var lf := LineFlagsOf(fi, ln);
    var n := LineNumberWords(ln);
    Reference(fi, Xyz(lf.f, lf.v, true)) + if fi.isHd then [n.0, n.0, n.1, n.1] else []
  }

  /** Both streams' CRCs of a line, interleaved as they lie on it. */
  function CrcWords(fi: Format, covered: seq<Word>): (r: seq<Word>)
    requires |covered| == 2 * fi.activeWidth + 12
    ensures |r| == 4 && forall k :: 0 <= k < 4 ==> 0 < r[k] < SYNC
  {
    var n := fi.activeWidth + 6;
    var c := Crc.CrcToWords(Crc.Crc18(Crc.Gather(covered, 0, n, 2), 0));
    var y := Crc.CrcToWords(Crc.Crc18(Crc.Gather(covered, 1, n, 2), 0));
    Crc.CarriersAreLegal(Crc.Crc18(Crc.Gather(covered, 0, n, 2), 0));
    Crc.CarriersAreLegal(Crc.Crc18(Crc.Gather(covered, 1, n, 2), 0));
    [c.0, y.0, c.1, y.1]
  }

  function Next(fi: Format, ln: nat): nat { if ln >= fi.totalLines then 1 else ln + 1 }

  function HancWords(fi: Format): nat
    requires fi.WellFormed()
  {
    fi.LineWords() - fi.activeWidth * 2 - fi.PostActiveWords() - fi.SavWords()
  }

  function Sav(fi: Format, ln: nat): (r: seq<Word>)
    ensures |r| == fi.SavWords()
  {
    var nf := LineFlagsOf(fi, Next(fi, ln));
    Reference(fi, Xyz(nf.f, nf.v, false))
  }

  function Crcs(fi: Format, ln: nat, active: seq<Word>): (r: seq<Word>)
    requires |active| == fi.activeWidth * 2
    ensures |r| == fi.PostActiveWords() - |Head(fi, ln)|
  {
    if fi.isHd then CrcWords(fi, active + Head(fi, ln)) else []
  }

  /** Everything after the active words: EAV and what follows it, blanking, and the SAV
    * that introduces the next line with the next line's flags. */
  function Post(fi: Format, ln: nat, active: seq<Word>): (r: seq<Word>)
    requires fi.WellFormed() && |active| == fi.activeWidth * 2
    ensures |r| == fi.LineWords() - fi.activeWidth * 2
  {
    Head(fi, ln) + Crcs(fi, ln, active) + Blank(HancWords(fi)) + Sav(fi, ln)
  }

  function Line(fi: Format, ln: nat, active: seq<Word>): (r: seq<Word>)
    requires fi.WellFormed() && |active| == fi.activeWidth * 2
    ensures |r| == fi.LineWords()
  {
    active + Post(fi, ln, active)
  }

  // ---------------------------------------------------------------------------
  // Seeing an EAV
  // ---------------------------------------------------------------------------

  function Need(fi: Format): nat { if fi.isHd then 8 else 4 }

  /** What the parser takes for an EAV at the head of `w`. */
  predicate IsEav(fi: Format, w: seq<Word>) {
    && |w| >= Need(fi)
    && if fi.isHd then
         w[0] == SYNC && w[1] == SYNC && w[2] == 0 && w[3] == 0 && w[4] == 0 && w[5] == 0 && w[6] == w[7]
         && XyzTop(w[6]) && XyzH(w[6])
       else
         w[0] == SYNC && w[1] == 0 && w[2] == 0 && XyzTop(w[3]) && XyzH(w[3])
  }

  /** What is taken for an EAV: its preamble, and a timing word with bits 9 and 6 set, on HD
    * in both streams. */
  lemma {:induction false} EavIs(fi: Format, w: seq<Word>)
    ensures IsEav(fi, w)
            <==> if fi.isHd then
                   && |w| >= 8 && w[..6] == [0x3FF, 0x3FF, 0, 0, 0, 0] && w[6] == w[7]
                   && w[6] / 512 % 2 == 1 && w[6] / 64 % 2 == 1
                 else
                   |w| >= 4 && w[..3] == [0x3FF, 0, 0] && w[3] / 512 % 2 == 1 && w[3] / 64 % 2 == 1
  {
    if fi.isHd && |w| >= 8 {
      assert w[..6] == [w[0], w[1], w[2], w[3], w[4], w[5]];
    } else if !fi.isHd && |w| >= 4 {
      assert w[..3] == [w[0], w[1], w[2]];
    }
  }

  /** No active word looks like the start of a timing reference. */
  ghost predicate Clean(active: seq<Word>) { forall i :: 0 <= i < |active| ==> active[i] < SYNC }

  function Syncs(fi: Format): nat { if fi.isHd then 2 else 1 }

  lemma {:induction false} HeadShape(fi: Format, ln: nat, rest: seq<Word>)
    ensures IsEav(fi, Head(fi, ln) + rest)
    ensures forall i :: Syncs(fi) <= i < |Head(fi, ln)| ==> Head(fi, ln)[i] < SYNC
  {
    var lf := LineFlagsOf(fi, ln);
    XyzReads(lf.f, lf.v, true);
    hide LineFlagsOf, Xyz, LineNumberWords, XyzTop, XyzH;
  }

  lemma SavShape(fi: Format, ln: nat)
    ensures var s := Sav(fi, ln);
            && (forall i :: 0 <= i < |s| ==> (s[i] == SYNC <==> i < Syncs(fi)) && s[i] <= SYNC)
            && !XyzH(s[if fi.isHd then 6 else 3])
  {
    var nf := LineFlagsOf(fi, Next(fi, ln));
    XyzReads(nf.f, nf.v, false);
    hide LineFlagsOf, Xyz, XyzTop, XyzH;
  }

  /** After the active words sync is found in two places: at their end, where an EAV is
    * seen, and at the SAV, where none is. */
  lemma {:induction false} PostShape(fi: Format, ln: nat, active: seq<Word>)
    requires fi.WellFormed() && |active| == fi.activeWidth * 2
    ensures var p := Post(fi, ln, active);
            var sav := |p| - fi.SavWords();
            && IsEav(fi, p) && p[sav..] == Sav(fi, ln)
            && (forall i :: Syncs(fi) <= i < sav ==> p[i] < SYNC)
  {
    var h, c, b, s := Head(fi, ln), Crcs(fi, ln, active), Blank(HancWords(fi)), Sav(fi, ln);
    HeadShape(fi, ln, c + b + s);
    assert Clean(c) && Clean(b);
    hide Head, Crcs, Blank, Sav, IsEav;
    assert Post(fi, ln, active) == h + (c + b + s);
  }

  /** The parser sees an EAV at a place in a line exactly where the active words end,
    * whatever the line, the picture and the words after it. */
  lemma {:induction false} EavOnlyAfterActive(fi: Format, ln: nat, active: seq<Word>, next: seq<Word>, i: nat)
    requires fi.WellFormed() && |active| == fi.activeWidth * 2 && Clean(active)
    requires i < fi.LineWords()
    ensures IsEav(fi, (Line(fi, ln, active) + next)[i..]) <==> i == |active|
  {
    var p := Post(fi, ln, active);
    var all := Line(fi, ln, active) + next;
    PostShape(fi, ln, active);
    SavShape(fi, ln);
    hide Post, Sav;
    if i < |active| {
      hide IsEav;
      assert all[i..][0] == active[i];
      NoSyncNoEav(fi, all[i..]);
    } else {
      assert all[i..] == (p + next)[i - |active|..];
      if i == |active| {
        EavReads(fi, p, next);
      } else {
        EavOnlyAtHead(fi, ln, p, next, i - |active|);
      }
    }
  }

  lemma {:induction false} NoSyncNoEav(fi: Format, w: seq<Word>)
    requires w != [] && w[0] != SYNC
    ensures !IsEav(fi, w)
  {}

  lemma {:induction false} EavReads(fi: Format, p: seq<Word>, next: seq<Word>)
    requires IsEav(fi, p)
    ensures IsEav(fi, (p + next)[0..])
  {}

  lemma {:induction false} EavOnlyAtHead(fi: Format, ln: nat, p: seq<Word>, next: seq<Word>, j: nat)
    requires var sav := |p| - fi.SavWords();
             && 0 <= sav && IsEav(fi, p) && p[sav..] == Sav(fi, ln)
             && (forall i :: Syncs(fi) <= i < sav ==> p[i] < SYNC)
    requires 0 < j < |p|
    ensures !IsEav(fi, (p + next)[j..])
  {
    SavShape(fi, ln);
    var sav, s := |p| - fi.SavWords(), Sav(fi, ln);
    hide Sav, XyzTop, XyzH;
    var w := (p + next)[j..];
    assert w[0] == p[j];
    if j >= sav {
      assert p[j] == s[j - sav];
      if j == sav {
        assert w[if fi.isHd then 6 else 3] == s[if fi.isHd then 6 else 3];
      } else if fi.isHd && j == sav + 1 {
        assert w[1] == s[2];
      }
    } else if j == 1 && fi.isHd {
      assert w[1] == p[2];
    }
  }
}
