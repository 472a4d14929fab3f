/** The check a frame cut from a capture has to pass: an EAV where every line should
  * start, with the right number on HD, and the vertical timing of two fields on SD. */
module RasterCheck {
  import opened Wrappers
  import opened SdiFormat
  import opened Bitpack
  import opened SdiLine

  /** The first sixteen words of a line's block. */
  function Probe(fi: Format, frame: seq<Byte>, ln: nat): (r: seq<Word>)
    requires 1 <= ln && (ln - 1) * (5 * fi.LineGroups()) + 20 <= |frame|
    ensures |r| == 16
  {
    var at := (ln - 1) * (5 * fi.LineGroups());
    UnpackLength(frame[at..at + 20], 4);
    Unpack(frame[at..at + 20])
  }

  predicate LineOk(fi: Format, w: seq<Word>, ln: nat)
    requires |w| == 16
  {
    if fi.isHd then
      w[0] == SYNC && w[1] == SYNC && w[2] == 0 && w[3] == 0 && w[4] == 0 && w[5] == 0
      && LineNumberFrom(w[8], w[10]) == ln
    else w[0] == SYNC && w[1] == 0 && w[2] == 0 && XyzH(w[3]) && XyzTop(w[3])
  }

  /** The blocks of a frame of the right size lie within it. */
  ghost predicate Framed(fi: Format, frame: seq<Byte>) {
    forall ln :: 1 <= ln <= fi.totalLines ==> BlockFits(fi, frame, ln)
  }

  predicate BlockFits(fi: Format, frame: seq<Byte>, ln: nat)
    requires 1 <= ln
  {
    (ln - 1) * (5 * fi.LineGroups()) + 20 <= |frame|
  }

  predicate VAt(fi: Format, frame: seq<Byte>, ln: nat)
    requires 1 <= ln && BlockFits(fi, frame, ln)
  {
    XyzV(Probe(fi, frame, ln)[3])
  }

  /** How often V has fallen over the first `n` lines, starting from set. */
  ghost function VFalls(fi: Format, frame: seq<Byte>, n: nat): nat
    requires Framed(fi, frame) && n <= fi.totalLines
  {
    if n == 0 then 0
    else
      assert BlockFits(fi, frame, n) && (n > 1 ==> BlockFits(fi, frame, n - 1));
      VFalls(fi, frame, n - 1)
      + B((n == 1 || VAt(fi, frame, n - 1)) && !VAt(fi, frame, n))
  }

  ghost predicate RasterOk(fi: Format, frame: seq<Byte>)
    requires Framed(fi, frame)
  {
    && (forall ln :: 1 <= ln <= fi.totalLines ==> BlockFits(fi, frame, ln) && LineOk(fi, Probe(fi, frame, ln), ln))
    && (fi.isHd || VFalls(fi, frame, fi.totalLines) == 2)
  }

  method Check(fi: Format, frame: seq<Byte>) returns (ok: bool)
    requires Framed(fi, frame)
    ensures ok == RasterOk(fi, frame)
  {
    hide Probe, LineOk;
    var vFalls, prevV := 0, true;
    var ln := 1;
    while ln <= fi.totalLines
      invariant 1 <= ln <= fi.totalLines + 1
      invariant forall i :: 1 <= i < ln ==> BlockFits(fi, frame, i) && LineOk(fi, Probe(fi, frame, i), i)
      invariant !fi.isHd ==> vFalls == VFalls(fi, frame, ln - 1)
      invariant !fi.isHd ==> prevV == (ln == 1 || (BlockFits(fi, frame, ln - 1) && VAt(fi, frame, ln - 1)))
    {
      assert BlockFits(fi, frame, ln);
      var w := Probe(fi, frame, ln);
      if !LineOk(fi, w, ln) { return false; }
      if !fi.isHd {
        var v := XyzV(w[3]);
        if prevV && !v { vFalls := vFalls + 1; }
        prevV := v;
      }
      ln := ln + 1;
    }
    return fi.isHd || vFalls == 2;
  }

  /** What passing says of a line's first words: the sync of an EAV, in both streams on HD with
    * the line's own number behind it; on SD one with H, and its top bit, set. */
  lemma {:induction false} PassingLine(fi: Format, w: seq<Word>, ln: nat)
    requires |w| == 16
    ensures LineOk(fi, w, ln)
            <==> if fi.isHd then w[..6] == [0x3FF, 0x3FF, 0, 0, 0, 0] && w[8] / 4 % 128 + 128 * (w[10] / 4 % 16) == ln
                 else w[..3] == [0x3FF, 0, 0] && w[3] / 64 % 2 == 1 && w[3] / 512 % 2 == 1
  {
    assert w[..6] == [w[0], w[1], w[2], w[3], w[4], w[5]];
    assert w[..3] == [w[0], w[1], w[2]];
  }

  // ---------------------------------------------------------------------------
  // Which frames are refused
  // ---------------------------------------------------------------------------

  /** Block `ln` is headed by the EAV of line `k`. */
  predicate HeadedBy(fi: Format, frame: seq<Byte>, ln: nat, k: nat)
    requires 1 <= ln && BlockFits(fi, frame, ln)
  {
    Probe(fi, frame, ln)[..|Head(fi, k)|] == Head(fi, k)
  }

  /** The blocks of a frame are headed by the EAVs of these lines. */
  ghost predicate HeadedAs(fi: Format, frame: seq<Byte>, lines: seq<nat>) {
    && |lines| == fi.totalLines
    && forall i :: 0 <= i < |lines| ==>
         1 <= lines[i] <= fi.totalLines && BlockFits(fi, frame, i + 1) && HeadedBy(fi, frame, i + 1, lines[i])
  }

  /** How often a line with a row follows one without, or comes first, in a run of lines. */
  function FieldsBegun(fi: Format, lines: seq<nat>): nat {
    if lines == [] then 0
    else
      var n := |lines| - 1;
      FieldsBegun(fi, lines[..n])
      + B(ActiveRowForLine(fi, lines[n]) >= 0 && (n == 0 || ActiveRowForLine(fi, lines[n - 1]) < 0))
  }

  lemma {:induction false} HeadedByReads(fi: Format, frame: seq<Byte>, ln: nat, k: nat)
    requires fi.WellFormed() && 1 <= ln && 1 <= k <= fi.totalLines && BlockFits(fi, frame, ln) && HeadedBy(fi, frame, ln, k)
    ensures LineOk(fi, Probe(fi, frame, ln), ln) <==> !fi.isHd || ln == k
    ensures !fi.isHd ==> (VAt(fi, frame, ln) <==> ActiveRowForLine(fi, k) < 0)
  {
    hide Probe, Xyz, LineNumberWords, LineNumberFrom, XyzH, XyzTop, XyzV, LineFlagsOf, ActiveRowForLine;
    var w, h, lf := Probe(fi, frame, ln), Head(fi, k), LineFlagsOf(fi, k);
    assert forall i :: 0 <= i < |h| ==> w[i] == w[..|h|][i];
    XyzReads(lf.f, lf.v, true);
    LineNumberRoundTrip(k);
    VMarksRows(fi, k);
  }

  lemma VMarksRows(fi: Format, k: nat)
    requires fi.WellFormed() && 1 <= k <= fi.totalLines
    ensures LineFlagsOf(fi, k).v <==> ActiveRowForLine(fi, k) < 0
  {}

  lemma {:induction false} FallsAreFields(fi: Format, frame: seq<Byte>, lines: seq<nat>, n: nat)
    requires fi.WellFormed() && !fi.isHd && Framed(fi, frame) && HeadedAs(fi, frame, lines) && n <= |lines|
    ensures VFalls(fi, frame, n) == FieldsBegun(fi, lines[..n])
  {
    hide Probe, LineOk, ActiveRowForLine, HeadedBy;
    if n > 0 {
      FallsAreFields(fi, frame, lines, n - 1);
      assert lines[..n][..n - 1] == lines[..n - 1];
      assert HeadedBy(fi, frame, n, lines[n - 1]);
      HeadedByReads(fi, frame, n, lines[n - 1]);
      if n > 1 {
        assert HeadedBy(fi, frame, n - 1, lines[n - 2]);
        HeadedByReads(fi, frame, n - 1, lines[n - 2]);
      }
    }
  }

  /** A frame of lines in whatever order passes on HD exactly if every line is in its place,
    * and on SD exactly if two fields begin in it. */
  lemma {:induction false} PassesExactly(fi: Format, frame: seq<Byte>, lines: seq<nat>)
    requires fi.WellFormed() && Framed(fi, frame) && HeadedAs(fi, frame, lines)
    ensures RasterOk(fi, frame)
            <==> if fi.isHd then forall i :: 0 <= i < |lines| ==> lines[i] == i + 1 else FieldsBegun(fi, lines) == 2
  {
    hide Probe, LineOk, ActiveRowForLine, HeadedBy, VFalls, FieldsBegun, Framed, Format.WellFormed;
    LinesPass(fi, frame, lines);
    if fi.isHd {
      if RasterOk(fi, frame) {
        forall i | 0 <= i < |lines| ensures lines[i] == i + 1 {
          var ln := i + 1;
          assert BlockFits(fi, frame, ln);
        }
      }
    } else {
      FallsAreFields(fi, frame, lines, |lines|);
      assert lines[..|lines|] == lines;
    }
  }

  lemma {:induction false} LinesPass(fi: Format, frame: seq<Byte>, lines: seq<nat>)
    requires fi.WellFormed() && HeadedAs(fi, frame, lines)
    ensures forall ln :: 1 <= ln <= fi.totalLines ==>
              BlockFits(fi, frame, ln) && (LineOk(fi, Probe(fi, frame, ln), ln) <==> !fi.isHd || lines[ln - 1] == ln)
  {
    hide Probe, LineOk, HeadedBy, Format.WellFormed;
    forall ln | 1 <= ln <= fi.totalLines
      ensures BlockFits(fi, frame, ln) && (LineOk(fi, Probe(fi, frame, ln), ln) <==> !fi.isHd || lines[ln - 1] == ln)
    {
      var i := ln - 1;
      assert HeadedBy(fi, frame, i + 1, lines[i]);
      HeadedByReads(fi, frame, ln, lines[i]);
    }
  }

  /** The lines of a frame that begins `k` lines late. */
  function Moved(fi: Format, k: nat): (r: seq<nat>)
    requires k < fi.totalLines
    ensures |r| == fi.totalLines
  {
    seq(fi.totalLines, i requires 0 <= i < fi.totalLines =>
      if k + i < fi.totalLines then k + i + 1 else k + i + 1 - fi.totalLines)
  }

  /** Where line `s` comes in it. */
  function PlaceOf(fi: Format, k: nat, s: nat): int {
    if s > k then s - 1 - k else s - 1 - k + fi.totalLines
  }

  lemma {:induction false} MovedFields(fi: Format, k: nat, n: nat)
    requires fi.WellFormed() && fi.InterlacedOnWire() && k < fi.totalLines && 0 < n <= fi.totalLines
    ensures FieldsBegun(fi, Moved(fi, k)[..n])
            == B(ActiveRowForLine(fi, k + 1) >= 0) + B(1 <= PlaceOf(fi, k, fi.activeStartF1) < n)
               + B(1 <= PlaceOf(fi, k, fi.activeStartF2) < n)
  {
    hide ActiveRowForLine;
    var lines := Moved(fi, k)[..n];
    if n == 1 {
      assert lines == [k + 1] && lines[..0] == [];
    } else {
      MovedFields(fi, k, n - 1);
      assert lines[..n - 1] == Moved(fi, k)[..n - 1];
      FieldBegins(fi, lines[n - 2], lines[n - 1]);
    }
  }

  lemma FieldBegins(fi: Format, before: nat, ln: nat)
    requires fi.WellFormed() && fi.InterlacedOnWire() && 1 <= before <= fi.totalLines
    requires ln == if before < fi.totalLines then before + 1 else 1
    ensures ActiveRowForLine(fi, ln) >= 0 && ActiveRowForLine(fi, before) < 0
            <==> ln == fi.activeStartF1 || ln == fi.activeStartF2
  {}

  /** A frame with every line's block headed by that line's own EAV passes, on every format; on
    * SD because the format's own two fields begin in it. */
  lemma {:induction false} OwnHeadsPass(fi: Format, frame: seq<Byte>)
    requires fi.WellFormed() && Framed(fi, frame)
    requires forall ln :: 1 <= ln <= fi.totalLines ==> BlockFits(fi, frame, ln) && HeadedBy(fi, frame, ln, ln)
    ensures RasterOk(fi, frame)
  {
    hide RasterOk, Framed, HeadedBy, ActiveRowForLine, FieldsBegun;
    var lines := Moved(fi, 0);
    forall i | 0 <= i < |lines| ensures lines[i] == i + 1 && BlockFits(fi, frame, i + 1) {
      var ln := i + 1;
      assert BlockFits(fi, frame, ln);
    }
    PassesExactly(fi, frame, lines);
    if !fi.isHd {
      MovedFields(fi, 0, fi.totalLines);
      assert lines[..fi.totalLines] == lines;
      NoRowFirst(fi);
    }
  }

  lemma NoRowFirst(fi: Format)
    requires fi.WellFormed()
    ensures ActiveRowForLine(fi, 1) < 0
  {}

  /** A frame that begins late is refused on HD.  On SD, where V is said to pin the timing as
    * firmly, it is refused exactly if it begins inside a field, after the field's first line. */
  lemma {:induction false} MovedPasses(fi: Format, frame: seq<Byte>, k: nat)
    requires fi.WellFormed() && Framed(fi, frame) && 0 < k < fi.totalLines && HeadedAs(fi, frame, Moved(fi, k))
    ensures RasterOk(fi, frame)
            <==> !fi.isHd && (ActiveRowForLine(fi, k + 1) < 0 || ActiveRowForLine(fi, k) < 0)
  {
    hide RasterOk, Framed, HeadedAs, ActiveRowForLine;
    PassesExactly(fi, frame, Moved(fi, k));
    if fi.isHd {
      assert Moved(fi, k)[0] != 1;
    } else {
      MovedFields(fi, k, fi.totalLines);
      assert Moved(fi, k)[..fi.totalLines] == Moved(fi, k);
      FieldBegins(fi, k, k + 1);
    }
  }
}
