/** Building pictures into rasters, packing, and parsing the bytes back, however they
  * are split up. */
module RasterRoundTrip {
  import opened Wrappers
  import opened SdiFormat
  import opened Bitpack
  import opened SdiLine
  import opened StreamParser

  type Picture = seq<seq<Byte>>

  predicate FitsPicture(fi: Format, pic: Picture) {
    |pic| == fi.activeHeight && forall r :: 0 <= r < |pic| ==> |pic[r]| == fi.activeWidth * 2
  }

  /** The active words of a raster line: a row of the picture, or blanking. */
  function ActiveOf(fi: Format, pic: Picture, ln: nat): (r: seq<Word>)
    requires FitsPicture(fi, pic)
    ensures |r| == fi.activeWidth * 2 && Clean(r)
  {
    var row := ActiveRowForLine(fi, ln);
    if 0 <= row < fi.activeHeight then ToWords(pic[row]) else Blank(fi.activeWidth * 2)
  }

  ghost predicate Valid(fi: Format, pics: seq<Picture>) {
    fi.WellFormed() && forall k :: 0 <= k < |pics| ==> FitsPicture(fi, pics[k])
  }

  function FrameLine(fi: Format, pic: Picture, ln: nat): (r: seq<Word>)
    requires fi.WellFormed() && FitsPicture(fi, pic)
    ensures |r| == fi.LineWords()
  {
    Line(fi, ln, ActiveOf(fi, pic, ln))
  }

  /** The words of the stream from line `ln` of frame `k` on. */
  ghost function StreamFrom(fi: Format, pics: seq<Picture>, k: nat, ln: nat): (r: seq<Word>)
    requires Valid(fi, pics) && 1 <= ln
    decreases |pics| - k, fi.totalLines + 1 - ln
  {
    if k >= |pics| then []
    else if ln > fi.totalLines then StreamFrom(fi, pics, k + 1, 1)
    else FrameLine(fi, pics[k], ln) + StreamFrom(fi, pics, k, ln + 1)
  }

  /** The stream from the EAV that ends line `e` of frame `k` on. */
  ghost function Tail(fi: Format, pics: seq<Picture>, k: nat, e: nat): (r: seq<Word>)
    requires Valid(fi, pics) && k < |pics| && 1 <= e <= fi.totalLines
  {
    Post(fi, e, ActiveOf(fi, pics[k], e)) + StreamFrom(fi, pics, k, e + 1)
  }

  // ---------------------------------------------------------------------------
  // Words of the stream
  // ---------------------------------------------------------------------------

  ghost predicate Narrow(w: seq<Word>) { forall i :: 0 <= i < |w| ==> w[i] < 1024 }

  lemma {:induction false} NarrowJoin(a: seq<Word>, b: seq<Word>)
    requires Narrow(a) && Narrow(b)
    ensures Narrow(a + b)
  {}

  lemma {:induction false} NarrowTen(w: seq<Word>)
    requires Narrow(w)
    ensures TenBits(w) == w
  {}

  lemma {:induction false} LineNarrow(fi: Format, ln: nat, active: seq<Word>)
    requires fi.WellFormed() && |active| == fi.activeWidth * 2 && Clean(active)
    ensures Narrow(Line(fi, ln, active))
  {
    PostShape(fi, ln, active);
    SavShape(fi, ln);
    var p := Post(fi, ln, active);
    hide Post, Sav, IsEav;
    var sav := |p| - fi.SavWords();
    assert forall i :: sav <= i < |p| ==> p[i] == p[sav..][i - sav];
    HeadNarrow(fi, ln, active);
    NarrowJoin(active, p);
  }

  lemma {:induction false} HeadNarrow(fi: Format, ln: nat, active: seq<Word>)
    requires fi.WellFormed() && |active| == fi.activeWidth * 2
    ensures forall i :: 0 <= i < Syncs(fi) ==> Post(fi, ln, active)[i] == SYNC
  {
    PostShape(fi, ln, active);
  }

  /** The stream is whole packing groups of ten-bit words, so unpacking undoes packing. */
  lemma {:induction false} StreamPacks(fi: Format, pics: seq<Picture>, k: nat, ln: nat) returns (groups: nat)
    requires Valid(fi, pics) && 1 <= ln
    ensures |StreamFrom(fi, pics, k, ln)| == 4 * groups && Narrow(StreamFrom(fi, pics, k, ln))
    decreases |pics| - k, fi.totalLines + 1 - ln
  {
    if k >= |pics| {
      groups := 0;
    } else if ln > fi.totalLines {
      groups := StreamPacks(fi, pics, k + 1, 1);
    } else {
      groups := StreamPacks(fi, pics, k, ln + 1);
      LineNarrow(fi, ln, ActiveOf(fi, pics[k], ln));
      hide Line, ActiveOf, Narrow;
      NarrowJoin(FrameLine(fi, pics[k], ln), StreamFrom(fi, pics, k, ln + 1));
      groups := groups + fi.LineGroups();
    }
  }

  // ---------------------------------------------------------------------------
  // The picture being assembled, line by line
  // ---------------------------------------------------------------------------

  /** How many of the lines up to `e` carry a row. */
  function RowsUpTo(fi: Format, e: nat): nat {
    if fi.InterlacedOnWire() then
      Clip(e + 1 - fi.activeStartF1, fi.activeLinesPerField) + Clip(e + 1 - fi.activeStartF2, fi.activeLinesPerField)
    else Clip(e + 1 - fi.activeStartF1, fi.activeLinesPerField)
  }

  function Clip(x: int, top: nat): nat { if x < 0 then 0 else if x > top then top else x }

  function LastActive(fi: Format): nat
    requires fi.WellFormed()
  {
    LineOfRow(fi, fi.activeHeight - 1)
  }

  /** On SD the first line of the first frame goes by before the count is set. */
  predicate Missed(fi: Format, k: nat, row: nat) { !fi.isHd && k == 0 && row == 0 }

  function Zeros(fi: Format): (r: seq<Byte>)
    ensures |r| == fi.activeWidth * 2
  {
    seq(fi.activeWidth * 2, i => 0)
  }

  /** What a row of frame `k` shows once the frame is in. */
  function Final(fi: Format, pics: seq<Picture>, k: nat, row: nat): seq<Byte>
    requires Valid(fi, pics) && k < |pics| && row < fi.activeHeight
  {
    if Missed(fi, k, row) then Zeros(fi) else pics[k][row]
  }

  /** What a row shows when the lines of frame `k` up to `e` are in. */
  function RowAt(fi: Format, pics: seq<Picture>, k: nat, e: nat, row: nat): seq<Byte>
    requires Valid(fi, pics) && k < |pics| && row < fi.activeHeight
  {
    if LineOfRow(fi, row) <= e then Final(fi, pics, k, row)
    else if k > 0 then Final(fi, pics, k - 1, row)
    else Zeros(fi)
  }

  /** The frame handed on for picture `i`. */
  function ShownOf(fi: Format, pics: seq<Picture>, i: nat): Shown
    requires Valid(fi, pics) && i < |pics|
  {
    Shown(seq(fi.activeHeight, row requires 0 <= row < fi.activeHeight => Final(fi, pics, i, row)),
          fi.activeHeight - (if !fi.isHd && i == 0 then 1 else 0), i)
  }

  function ShownUpTo(fi: Format, pics: seq<Picture>, n: nat): (r: seq<Shown>)
    requires Valid(fi, pics) && n <= |pics|
    ensures |r| == n
  {
    seq(n, i requires 0 <= i < n => ShownOf(fi, pics, i))
  }

  /** Frames complete when the lines of frame `k` up to `e` are in. */
  function Complete(fi: Format, k: nat, e: nat): nat
    requires fi.WellFormed()
  {
    if e >= LastActive(fi) then k + 1 else k
  }

  function RecoveredAt(fi: Format, k: nat, e: nat): int
    requires fi.WellFormed()
  {
    if e >= LastActive(fi) then 0
    else RowsUpTo(fi, e) - if !fi.isHd && k == 0 && e >= fi.activeStartF1 then 1 else 0
  }

  /** The picture and the frames handed on, with the lines of frame `k` up to `e` in. */
  ghost predicate PictureAt(fi: Format, pics: seq<Picture>, r: Raster, k: nat, e: nat)
    requires Valid(fi, pics) && k < |pics|
  {
    && |r.rows| == fi.activeHeight
    && (forall row :: 0 <= row < fi.activeHeight ==> r.rows[row] == RowAt(fi, pics, k, e, row))
    && r.out == ShownUpTo(fi, pics, Complete(fi, k, e)) && r.emitted == Complete(fi, k, e)
    && r.recovered == RecoveredAt(fi, k, e) && (r.have <==> r.recovered > 0)
  }

  /** The SD count before the EAV of line `e` of frame `k`: where it is set it is true. */
  ghost predicate CountAt(fi: Format, r: Raster, k: nat, e: nat)
    requires 1 <= e <= fi.totalLines
  {
    var prev := if e == 1 then fi.totalLines else e - 1;
    && (r.anchored <==> k > 0 || e > fi.activeStartF1)
    && (r.anchored ==> r.ended == prev)
    && r.prevV == (if k == 0 && e == 1 then -1 else if LineFlagsOf(fi, prev).v then 1 else 0)
  }

  /** The counted line is the true line in every state the stream can lead to. */
  lemma {:induction false} CountStep(fi: Format, r: Raster, k: nat, e: nat)
    requires fi.WellFormed() && !fi.isHd && 1 <= e <= fi.totalLines && CountAt(fi, r, k, e)
    ensures var lf := LineFlagsOf(fi, e);
            var s := Count(fi, r, lf.f, lf.v);
            && (s.anchored ==> s.ended == e)
            && (s.anchored <==> k > 0 || e >= fi.activeStartF1)
            && (if e < fi.totalLines then CountAt(fi, s, k, e + 1) else CountAt(fi, s, k + 1, 1))
  {}

  lemma RowsStep(fi: Format, e: nat)
    requires fi.WellFormed() && e < fi.totalLines
    ensures RowsUpTo(fi, e + 1) == RowsUpTo(fi, e) + if ActiveRowForLine(fi, e + 1) >= 0 then 1 else 0
    ensures RowsUpTo(fi, LastActive(fi)) == fi.activeHeight && RowsUpTo(fi, 0) == RowsUpTo(fi, 1) == 0
  {}

  lemma RowsMore(fi: Format, row: nat)
    requires fi.WellFormed() && row < fi.activeHeight
    ensures LineOfRow(fi, row) <= LastActive(fi) <= fi.totalLines
    ensures row != 0 ==> fi.activeStartF1 < LineOfRow(fi, row)
    ensures LineOfRow(fi, 0) == fi.activeStartF1
    ensures fi.activeHeight > 1 ==> fi.activeStartF1 < LastActive(fi)
    ensures !fi.isHd ==> fi.activeHeight > 1
  {}

  /** The row a line carries, if any: the last line with a row carries the last one. */
  lemma LineFacts(fi: Format, e: nat)
    requires fi.WellFormed() && e < fi.totalLines
    ensures var row := ActiveRowForLine(fi, e + 1);
            && -1 <= row < fi.activeHeight
            && (row == fi.activeHeight - 1 <==> e + 1 == LastActive(fi))
            && (row >= 0 ==> e + 1 <= LastActive(fi))
            && RowsUpTo(fi, e + 1) == RowsUpTo(fi, e) + (if row >= 0 then 1 else 0)
    ensures RowsUpTo(fi, LastActive(fi)) == fi.activeHeight
  {
    RowsStep(fi, e);
    var row := ActiveRowForLine(fi, e + 1);
    RowsAndLines(fi, fi.activeHeight - 1, e + 1);
    if row >= 0 {
      RowsAndLines(fi, row, e + 1);
      RowsMore(fi, row);
    }
  }

  lemma {:induction false} PlaceRows(fi: Format, pics: seq<Picture>, rows: seq<seq<Byte>>, k: nat, e: nat)
    requires Valid(fi, pics) && k < |pics| && e < fi.totalLines && |rows| == fi.activeHeight
    requires forall i :: 0 <= i < fi.activeHeight ==> rows[i] == RowAt(fi, pics, k, e, i)
    requires fi.isHd || k > 0 || e >= fi.activeStartF1
    ensures var row, active := ActiveRowForLine(fi, e + 1), ActiveOf(fi, pics[k], e + 1);
            && -1 <= row < fi.activeHeight
            && var next := if row >= 0 then rows[row := Samples(active)] else rows;
               forall i :: 0 <= i < fi.activeHeight ==> next[i] == RowAt(fi, pics, k, e + 1, i)
  {
    LineFacts(fi, e);
    var row, active := ActiveRowForLine(fi, e + 1), ActiveOf(fi, pics[k], e + 1);
    if row >= 0 { SamplesOfWords(pics[k][row]); }
    forall i: nat | i < fi.activeHeight
      ensures LineOfRow(fi, i) == e + 1 <==> row == i
      ensures i == 0 ==> LineOfRow(fi, i) == fi.activeStartF1
    {
      RowsAndLines(fi, i, e + 1);
      RowsMore(fi, i);
    }
    hide LineOfRow, ActiveRowForLine, Format.WellFormed, LineFlagsOf, Samples, ToWords;
  }

  lemma PlaceCounts(fi: Format, k: nat, e: nat)
    requires fi.WellFormed() && e < fi.totalLines && (fi.isHd || k > 0 || e >= fi.activeStartF1)
    ensures var row := ActiveRowForLine(fi, e + 1);
            && -1 <= row < fi.activeHeight
            && RecoveredAt(fi, k, e) >= 0
            && if row == fi.activeHeight - 1 then
                 && RecoveredAt(fi, k, e) + 1 == fi.activeHeight - (if !fi.isHd && k == 0 then 1 else 0)
                 && RecoveredAt(fi, k, e + 1) == 0 && Complete(fi, k, e) == k && Complete(fi, k, e + 1) == k + 1
               else
                 && RecoveredAt(fi, k, e + 1) == RecoveredAt(fi, k, e) + (if row >= 0 then 1 else 0)
                 && Complete(fi, k, e + 1) == Complete(fi, k, e)
  {
    LineFacts(fi, e);
    RowsMore(fi, 0);
    hide LineOfRow, ActiveRowForLine, LineFlagsOf;
  }

  lemma {:induction false} ShownMore(fi: Format, pics: seq<Picture>, k: nat)
    requires Valid(fi, pics) && k < |pics|
    ensures ShownUpTo(fi, pics, k + 1) == ShownUpTo(fi, pics, k) + [ShownOf(fi, pics, k)]
  {
    hide ShownOf;
  }

  /** A unit in the middle of a frame. */
  lemma {:induction false} PlaceStep(fi: Format, pics: seq<Picture>, r: Raster, k: nat, e: nat)
    requires Valid(fi, pics) && k < |pics| && 1 <= e < fi.totalLines && PictureAt(fi, pics, r, k, e)
    requires fi.isHd || k > 0 || e >= fi.activeStartF1
    ensures PictureAt(fi, pics, Place(fi, r, e + 1, ActiveOf(fi, pics[k], e + 1)), k, e + 1)
  {
    hide RowsUpTo, LineOfRow, ActiveRowForLine, Format.WellFormed, Samples, RowAt, ActiveOf, Final, FitsPicture;
    hide RecoveredAt, Complete, LastActive, ShownUpTo;
    PlaceRows(fi, pics, r.rows, k, e);
    PlaceCounts(fi, k, e);
    LineFacts(fi, e);
    ShownMore(fi, pics, k);
    var s := Place(fi, r, e + 1, ActiveOf(fi, pics[k], e + 1));
    if e + 1 == LastActive(fi) {
      LastRows(fi, pics, s.rows, k);
    }
  }

  /** With the last active line in, the picture is what the frame finally shows. */
  lemma {:induction false} LastRows(fi: Format, pics: seq<Picture>, rows: seq<seq<Byte>>, k: nat)
    requires Valid(fi, pics) && k < |pics| && |rows| == fi.activeHeight
    requires forall i :: 0 <= i < fi.activeHeight ==> rows[i] == RowAt(fi, pics, k, LastActive(fi), i)
    ensures rows == ShownOf(fi, pics, k).rows
  {
    forall i: nat | i < fi.activeHeight
      ensures rows[i] == Final(fi, pics, k, i)
    {
      RowsMore(fi, i);
    }
  }

  /** Before the count is set nothing is written. */
  lemma {:induction false} SkipStep(fi: Format, pics: seq<Picture>, r: Raster, e: nat)
    requires Valid(fi, pics) && pics != [] && 1 <= e < fi.activeStartF1 && PictureAt(fi, pics, r, 0, e)
    requires !fi.isHd
    ensures PictureAt(fi, pics, r, 0, e + 1)
  {
    RowsMore(fi, 0);
    forall i: nat | i < fi.activeHeight
      ensures RowAt(fi, pics, 0, e, i) == RowAt(fi, pics, 0, e + 1, i)
    {
      RowsMore(fi, i);
    }
    LineFacts(fi, e);
    hide LineOfRow, RowAt, LineFlagsOf;
  }

  /** The unit that ends a frame carries the first line of the next, which has no row. */
  lemma {:induction false} WrapStep(fi: Format, pics: seq<Picture>, r: Raster, k: nat, active: seq<Word>)
    requires Valid(fi, pics) && k + 1 < |pics| && PictureAt(fi, pics, r, k, fi.totalLines)
    ensures PictureAt(fi, pics, Place(fi, r, fi.totalLines + 1, active), k + 1, 1)
  {
    RowsMore(fi, 0);
    LineFacts(fi, 0);
    forall i: nat | i < fi.activeHeight
      ensures RowAt(fi, pics, k, fi.totalLines, i) == RowAt(fi, pics, k + 1, 1, i)
    {
      RowsMore(fi, i);
    }
    hide LineOfRow, RowAt, LineFlagsOf;
  }

  // ---------------------------------------------------------------------------
  // One unit
  // ---------------------------------------------------------------------------

  /** The unit from the EAV of a line to the end of the next line's active words. */
  function UnitOf(fi: Format, ln: nat, active: seq<Word>, next: seq<Word>): (r: seq<Word>)
    requires fi.WellFormed() && |active| == |next| == fi.activeWidth * 2
    ensures |r| == fi.LineWords()
  {
    Post(fi, ln, active) + next
  }

  lemma {:induction false} UnitReads(fi: Format, ln: nat, active: seq<Word>, next: seq<Word>)
    requires fi.WellFormed() && |active| == |next| == fi.activeWidth * 2 && 1 <= ln <= fi.totalLines
    ensures var u := UnitOf(fi, ln, active, next);
            && PreambleOk(fi, u) && u[fi.LineWords() - fi.activeWidth * 2..] == next
            && (fi.isHd ==> LineNumberFrom(u[8], u[10]) == ln)
            && (!fi.isHd ==> XyzF(u[3]) == LineFlagsOf(fi, ln).f && XyzV(u[3]) == LineFlagsOf(fi, ln).v)
  {
    var lf := LineFlagsOf(fi, ln);
    XyzReads(lf.f, lf.v, true);
    LineNumberRoundTrip(ln);
    hide XyzF, XyzV, XyzH, XyzTop, Xyz, LineNumberFrom, LineNumberWords, LineFlagsOf, Crcs, Sav, Blank;
    var u, h := UnitOf(fi, ln, active, next), Head(fi, ln);
    assert u[..|h|] == h;
    assert forall i :: 0 <= i < |h| ==> u[i] == h[i];
  }

  /** Where the next line is. */
  function NextFrame(fi: Format, k: nat, e: nat): nat { if e < fi.totalLines then k else k + 1 }
  function NextLine(fi: Format, e: nat): nat { if e < fi.totalLines then e + 1 else 1 }

  /** The unit that starts with the EAV of line `e` of frame `k`. */
  ghost function UnitAt(fi: Format, pics: seq<Picture>, k: nat, e: nat): (r: seq<Word>)
    requires Valid(fi, pics) && k < |pics| && 1 <= e <= fi.totalLines && NextFrame(fi, k, e) < |pics|
    ensures |r| == fi.LineWords()
  {
    UnitOf(fi, e, ActiveOf(fi, pics[k], e), ActiveOf(fi, pics[NextFrame(fi, k, e)], NextLine(fi, e)))
  }

  ghost predicate RasterAt(fi: Format, pics: seq<Picture>, r: Raster, k: nat, e: nat)
    requires Valid(fi, pics) && k < |pics| && 1 <= e <= fi.totalLines
  {
    PictureAt(fi, pics, r, k, e) && (!fi.isHd ==> CountAt(fi, r, k, e))
  }

  /** Consuming the unit between two lines takes the picture from one to the next. */
  lemma {:induction false} UnitStep(fi: Format, pics: seq<Picture>, r: Raster, k: nat, e: nat)
    requires Valid(fi, pics) && k < |pics| && 1 <= e <= fi.totalLines && NextFrame(fi, k, e) < |pics|
    requires RasterAt(fi, pics, r, k, e)
    ensures PreambleOk(fi, UnitAt(fi, pics, k, e))
    ensures RasterAt(fi, pics, Consume(fi, r, UnitAt(fi, pics, k, e)), NextFrame(fi, k, e), NextLine(fi, e))
  {
    hide ActiveOf, UnitOf, Post, LineNumberFrom, XyzF, XyzV, PreambleOk, PictureAt, CountAt, LineFlagsOf, Place, Count;
    hide FitsPicture, Format.WellFormed;
    var k2, e2 := NextFrame(fi, k, e), NextLine(fi, e);
    UnitReads(fi, e, ActiveOf(fi, pics[k], e), ActiveOf(fi, pics[k2], e2));
    if fi.isHd {
      PlaceNext(fi, pics, r, k, e);
    } else {
      SdStep(fi, pics, r, k, e);
    }
  }

  lemma {:induction false} SdStep(fi: Format, pics: seq<Picture>, r: Raster, k: nat, e: nat)
    requires Valid(fi, pics) && k < |pics| && 1 <= e <= fi.totalLines && NextFrame(fi, k, e) < |pics|
    requires !fi.isHd && RasterAt(fi, pics, r, k, e)
    ensures var k2, e2 := NextFrame(fi, k, e), NextLine(fi, e);
            var c := Count(fi, r, LineFlagsOf(fi, e).f, LineFlagsOf(fi, e).v);
            RasterAt(fi, pics, if c.anchored then Place(fi, c, c.ended + 1, ActiveOf(fi, pics[k2], e2)) else c, k2, e2)
  {
    hide PictureAt, Count, CountAt, LineFlagsOf, Place, ActiveOf, FitsPicture, Format.WellFormed;
    var k2, e2 := NextFrame(fi, k, e), NextLine(fi, e);
    var c := Count(fi, r, LineFlagsOf(fi, e).f, LineFlagsOf(fi, e).v);
    CountStep(fi, r, k, e);
    CountKeepsPicture(fi, pics, r, k, e, LineFlagsOf(fi, e));
    StartIsInside(fi);
    if c.anchored {
      PlaceNext(fi, pics, c, k, e);
      PlaceKeepsCount(fi, c, c.ended + 1, ActiveOf(fi, pics[k2], e2), k2, e2);
    } else {
      SkipStep(fi, pics, c, e);
    }
  }

  lemma {:induction false} CountKeepsPicture(fi: Format, pics: seq<Picture>, r: Raster, k: nat, e: nat, lf: LineFlags)
    requires Valid(fi, pics) && k < |pics| && PictureAt(fi, pics, r, k, e)
    ensures PictureAt(fi, pics, Count(fi, r, lf.f, lf.v), k, e)
    ensures |r.rows| == |Count(fi, r, lf.f, lf.v).rows| == fi.activeHeight
  {
    hide RowAt, ShownUpTo, Complete, RecoveredAt, FitsPicture, Format.WellFormed;
  }

  lemma StartIsInside(fi: Format)
    requires fi.WellFormed()
    ensures fi.activeStartF1 <= fi.totalLines
  {}

  lemma {:induction false} PlaceNext(fi: Format, pics: seq<Picture>, r: Raster, k: nat, e: nat)
    requires Valid(fi, pics) && k < |pics| && 1 <= e <= fi.totalLines && NextFrame(fi, k, e) < |pics|
    requires PictureAt(fi, pics, r, k, e) && (fi.isHd || k > 0 || e >= fi.activeStartF1)
    ensures var k2, e2 := NextFrame(fi, k, e), NextLine(fi, e);
            PictureAt(fi, pics, Place(fi, r, e + 1, ActiveOf(fi, pics[k2], e2)), k2, e2)
  {
    hide PictureAt, Place, ActiveOf;
    if e < fi.totalLines {
      PlaceStep(fi, pics, r, k, e);
    } else {
      WrapStep(fi, pics, r, k, ActiveOf(fi, pics[k + 1], 1));
    }
  }

  lemma {:induction false} PlaceKeepsCount(fi: Format, r: Raster, line: nat, active: seq<Word>, k: nat, e: nat)
    requires |r.rows| == fi.activeHeight && 1 <= e <= fi.totalLines && CountAt(fi, r, k, e)
    ensures CountAt(fi, Place(fi, r, line, active), k, e)
  {
    hide LineFlagsOf, ActiveRowForLine;
  }

  // ---------------------------------------------------------------------------
  // Following the stream
  // ---------------------------------------------------------------------------

  /** The words from one EAV on are a whole unit and the words from the next EAV on,
    * unless they are shorter than a unit. */
  lemma {:induction false} TailUnit(fi: Format, pics: seq<Picture>, k: nat, e: nat)
    requires Valid(fi, pics) && k < |pics| && 1 <= e <= fi.totalLines && |Tail(fi, pics, k, e)| >= fi.LineWords()
    ensures NextFrame(fi, k, e) < |pics|
    ensures Tail(fi, pics, k, e) == UnitAt(fi, pics, k, e) + Tail(fi, pics, NextFrame(fi, k, e), NextLine(fi, e))
  {
    var k2, e2 := NextFrame(fi, k, e), NextLine(fi, e);
    hide Post, ActiveOf;
    assert StreamFrom(fi, pics, k, e + 1)
           == if e < fi.totalLines then StreamFrom(fi, pics, k, e + 1) else StreamFrom(fi, pics, k2, 1);
    if k2 < |pics| {
      assert StreamFrom(fi, pics, k2, e2) == FrameLine(fi, pics[k2], e2) + StreamFrom(fi, pics, k2, e2 + 1);
    }
  }

  /** Locked on the stream at the EAV of line `e` of frame `k`, with `rest` still to come. */
  ghost predicate InStep(fi: Format, pics: seq<Picture>, p: Parser, rest: seq<Byte>, k: nat, e: nat)
    requires Valid(fi, pics)
  {
    && k < |pics| && 1 <= e <= fi.totalLines
    && p.phaseKnown && p.locked && p.lineErrors == 0
    && p.pending + Unpack(p.bytes + rest) == Tail(fi, pics, k, e)
    && RasterAt(fi, pics, p.raster, k, e)
  }

  lemma {:induction false} CutFront<T>(a: seq<T>, b: seq<T>, u: seq<T>, t: seq<T>)
    requires a + b == u + t && |a| >= |u|
    ensures a[..|u|] == u && a[|u|..] + b == t
  {
    assert a[..|u|] == (a + b)[..|u|] == u;
    assert a[|u|..] + b == (a + b)[|u|..] == t;
  }

  lemma {:induction false} DrainFollows(fi: Format, pics: seq<Picture>, p: Parser, rest: seq<Byte>, k: nat, e: nat)
      returns (k2: nat, e2: nat)
    requires Valid(fi, pics) && InStep(fi, pics, p, rest, k, e)
    ensures |p.raster.rows| == fi.activeHeight
    ensures InStep(fi, pics, Drain(fi, p), rest, k2, e2) && |Drain(fi, p).pending| < fi.LineWords()
    ensures Drain(fi, p).bytes == p.bytes
    decreases |p.pending|
  {
    DrainStep(fi, p);
    if |p.pending| < fi.LineWords() {
      k2, e2 := k, e;
    } else {
      TailUnit(fi, pics, k, e);
      var unit := UnitAt(fi, pics, k, e);
      k2, e2 := NextFrame(fi, k, e), NextLine(fi, e);
      hide Tail, UnitAt, Drain, RasterAt, Consume, PreambleOk, Unpack, NextFrame, NextLine, Format.WellFormed;
      CutFront(p.pending, Unpack(p.bytes + rest), unit, Tail(fi, pics, k2, e2));
      UnitStep(fi, pics, p.raster, k, e);
      var q := p.(pending := p.pending[fi.LineWords()..], raster := Consume(fi, p.raster, unit));
      k2, e2 := DrainFollows(fi, pics, q, rest, k2, e2);
    }
  }

  // ---------------------------------------------------------------------------
  // Locking, and whole runs
  // ---------------------------------------------------------------------------

  ghost function Wire(fi: Format, pics: seq<Picture>): seq<Byte>
    requires Valid(fi, pics)
  {
    Pack(StreamFrom(fi, pics, 0, 1))
  }

  lemma {:induction false} WireUnpacks(fi: Format, pics: seq<Picture>)
    requires Valid(fi, pics)
    ensures Unpack(Wire(fi, pics)) == StreamFrom(fi, pics, 0, 1)
  {
    var groups := StreamPacks(fi, pics, 0, 1);
    hide StreamFrom, Pack, Unpack, Narrow;
    UnpackPack(StreamFrom(fi, pics, 0, 1));
    NarrowTen(StreamFrom(fi, pics, 0, 1));
  }

  /** Whole groups unpack on their own. */
  lemma {:induction false} UnpackSplit(bytes: seq<Byte>, rest: seq<Byte>)
    ensures var n := |bytes| / 5 * 5;
            && Unpack(bytes + rest) == Unpack(bytes[..n]) + Unpack(bytes[n..] + rest)
            && |Unpack(bytes[..n])| == |bytes| / 5 * 4
  {
    var groups := |bytes| / 5;
    var n := groups * 5;
    hide Unpack;
    assert bytes + rest == bytes[..n] + (bytes[n..] + rest);
    UnpackAppend(bytes[..n], bytes[n..] + rest, groups);
    UnpackLength(bytes[..n], groups);
  }

  /** Not yet locked: nothing consumed, too little seen to look. */
  ghost predicate Waiting(fi: Format, pics: seq<Picture>, p: Parser, rest: seq<Byte>)
    requires Valid(fi, pics)
  {
    && !p.phaseKnown && !p.locked && p.pending == [] && p.lineErrors == 0 && p.raster == NewRaster(fi)
    && p.bytes + rest == Wire(fi, pics) && |p.bytes| < ScanBytes(fi)
  }

  ghost predicate Following(fi: Format, pics: seq<Picture>, p: Parser, rest: seq<Byte>, k: nat, e: nat)
    requires Valid(fi, pics)
  {
    InStep(fi, pics, p, rest, k, e) && |p.pending| < fi.LineWords() && |p.bytes| < 5
  }

  /** The parser at the start of a stream shows a blank picture. */
  lemma {:induction false} NewIsAtStart(fi: Format, pics: seq<Picture>)
    requires Valid(fi, pics) && pics != []
    ensures fi.totalLines >= 1 && RasterAt(fi, pics, NewRaster(fi), 0, 1)
    ensures |NewRaster(fi).rows| == fi.activeHeight
  {
    forall row: nat | row < fi.activeHeight
      ensures LineOfRow(fi, row) > 1
    {
      RowsAndLines(fi, row, 1);
    }
    RowsStep(fi, 0);
    hide LineFlagsOf, LineOfRow, RowsUpTo;
  }

  lemma ScanIsLongEnough(fi: Format, n: nat)
    requires fi.WellFormed() && n >= ScanBytes(fi)
    ensures n / 5 * 4 >= ScanWords(fi) >= fi.LineWords() + 16 && n >= 5
  {
    assert ScanWords(fi) == fi.totalSamples * 4 + 64;
  }

  /** In words that begin a stream the first EAV is the one after the first line's
    * active words. */
  lemma {:induction false} FirstEavIsTrue(fi: Format, pics: seq<Picture>, w: seq<Word>, rest: seq<Word>)
    requires Valid(fi, pics) && pics != [] && w + rest == StreamFrom(fi, pics, 0, 1)
    requires |w| >= fi.LineWords()
    ensures FirstEav(fi, w, 0) == Some(fi.activeWidth * 2)
    ensures w[fi.activeWidth * 2..] + rest == Tail(fi, pics, 0, 1)
  {
    var active := ActiveOf(fi, pics[0], 1);
    var next := StreamFrom(fi, pics, 0, 2);
    var all := Line(fi, 1, active) + next;
    assert all == w + rest;
    hide ActiveOf, StreamFrom, Line;
    var aw := fi.activeWidth * 2;
    forall i: nat | i <= aw
      ensures IsEav(fi, w[i..]) <==> i == aw
    {
      EavOnlyAfterActive(fi, 1, active, next, i);
      EavPrefix(fi, w[i..], all[i..]);
    }
    assert w[aw..] + rest == all[aw..];
    LineTail(fi, 1, active, next);
  }

  lemma {:induction false} LineTail(fi: Format, ln: nat, active: seq<Word>, next: seq<Word>)
    requires fi.WellFormed() && |active| == fi.activeWidth * 2
    ensures (Line(fi, ln, active) + next)[fi.activeWidth * 2..] == Post(fi, ln, active) + next
  {
    hide Post;
  }

  lemma {:induction false} EavPrefix(fi: Format, w: seq<Word>, v: seq<Word>)
    requires w <= v && |w| >= 8
    ensures IsEav(fi, w) <==> IsEav(fi, v)
  {
    hide XyzTop, XyzH;
  }

  /** A stream that has not been locked to yet is waited for, or locked to at its first
    * EAV and followed from there. */
  lemma {:induction false} FeedWaiting(fi: Format, pics: seq<Picture>, p: Parser, chunk: seq<Byte>, rest: seq<Byte>)
      returns (k: nat, e: nat)
    requires Valid(fi, pics) && pics != [] && Waiting(fi, pics, p, chunk + rest)
    ensures |p.raster.rows| == fi.activeHeight
    ensures Waiting(fi, pics, FeedOf(fi, p, chunk), rest) || Following(fi, pics, FeedOf(fi, p, chunk), rest, k, e)
  {
    hide Unpack, StreamFrom, Tail, RasterAt, FirstEav, Format.WellFormed, Drain, ScanBytes, FeedOf, Wire;
    hide Probe, PhaseFrom, ScanWords, FitsPicture, NewRaster;
    k, e := 0, 1;
    NewIsAtStart(fi, pics);
    var bytes := p.bytes + chunk;
    assert bytes + rest == p.bytes + (chunk + rest);
    if |bytes| < ScanBytes(fi) {
      TooShortToLook(fi, p, chunk);
    } else {
      var n := |bytes| / 5 * 5;
      var words, later := Unpack(bytes[..n]), Unpack(bytes[n..] + rest);
      ScanIsLongEnough(fi, |bytes|);
      UnpackSplit(bytes, rest);
      WireUnpacks(fi, pics);
      FirstEavIsTrue(fi, pics, words, later);
      PhaseIsZero(fi, pics, bytes, words, later);
      LocksThere(fi, p, chunk, words);
      var locked := p.(bytes := bytes[n..], pending := words[fi.activeWidth * 2..], phaseKnown := true, locked := true);
      k, e := DrainFollows(fi, pics, locked, rest, 0, 1);
    }
  }

  lemma {:induction false} TooShortToLook(fi: Format, p: Parser, chunk: seq<Byte>)
    requires fi.WellFormed() && |p.raster.rows| == fi.activeHeight && !p.phaseKnown
    requires |p.bytes + chunk| < ScanBytes(fi)
    ensures FeedOf(fi, p, chunk) == p.(bytes := p.bytes + chunk)
  {
    hide Format.WellFormed, ScanBytes, Drain, FindLine, Unpacked, PhaseFrom;
  }

  lemma {:induction false} PhaseIsZero(fi: Format, pics: seq<Picture>, bytes: seq<Byte>, words: seq<Word>, later: seq<Word>)
    requires Valid(fi, pics) && pics != [] && words + later == StreamFrom(fi, pics, 0, 1)
    requires |bytes| >= 5 && words == Unpack(bytes[..|bytes| / 5 * 5])
    requires |words| >= ScanWords(fi) >= fi.LineWords() + 16
    ensures PhaseFrom(fi, bytes, 0) == Some(0)
  {
    hide Unpack, StreamFrom, Format.WellFormed, FirstEav, ScanWords, IsEav, Tail;
    var probe := words[..ScanWords(fi)];
    assert bytes[0..|bytes| / 5 * 5] == bytes[..|bytes| / 5 * 5];
    assert Probe(fi, bytes, 0) == probe;
    assert probe + (words[|probe|..] + later) == words + later;
    FirstEavIsTrue(fi, pics, probe, words[|probe|..] + later);
  }

  lemma {:induction false} LocksThere(fi: Format, p: Parser, chunk: seq<Byte>, words: seq<Word>)
    requires fi.WellFormed() && |p.raster.rows| == fi.activeHeight && !p.phaseKnown && !p.locked && p.pending == []
    requires |p.bytes + chunk| >= ScanBytes(fi) && PhaseFrom(fi, p.bytes + chunk, 0) == Some(0)
    requires words == Unpack((p.bytes + chunk)[..|p.bytes + chunk| / 5 * 5])
    requires |words| >= fi.activeWidth * 2 && FirstEav(fi, words, 0) == Some(fi.activeWidth * 2)
    ensures var bytes := p.bytes + chunk;
            FeedOf(fi, p, chunk)
            == Drain(fi, p.(bytes := bytes[|bytes| / 5 * 5..], pending := words[fi.activeWidth * 2..],
                            phaseKnown := true, locked := true))
  {
    hide Unpack, FirstEav, ScanBytes, Format.WellFormed, Drain, PhaseFrom;
    var bytes := p.bytes + chunk;
    assert bytes[0..] == bytes;
    assert [] + words == words;
  }

  // ---------------------------------------------------------------------------
  // Whole runs
  // ---------------------------------------------------------------------------

  lemma {:induction false} FeedFollowing(fi: Format, pics: seq<Picture>, p: Parser, chunk: seq<Byte>, rest: seq<Byte>,
                                         k: nat, e: nat)
      returns (k2: nat, e2: nat)
    requires Valid(fi, pics) && Following(fi, pics, p, chunk + rest, k, e)
    ensures |p.raster.rows| == fi.activeHeight
    ensures Following(fi, pics, FeedOf(fi, p, chunk), rest, k2, e2)
  {
    hide Unpack, StreamFrom, Tail, RasterAt, Format.WellFormed, Drain, FindPhase, FindLine, FitsPicture, ScanBytes;
    var bytes := p.bytes + chunk;
    assert bytes + rest == p.bytes + (chunk + rest);
    var n := |bytes| / 5 * 5;
    UnpackSplit(bytes, rest);
    RasterRows(fi, pics, p.raster, k, e);
    var ready := p.(bytes := bytes[n..], pending := p.pending + Unpack(bytes[..n]));
    assert ready.pending + Unpack(ready.bytes + rest) == p.pending + Unpack(bytes + rest);
    k2, e2 := DrainFollows(fi, pics, ready, rest, k, e);
  }

  lemma {:induction false} RasterRows(fi: Format, pics: seq<Picture>, r: Raster, k: nat, e: nat)
    requires Valid(fi, pics) && k < |pics| && 1 <= e <= fi.totalLines && RasterAt(fi, pics, r, k, e)
    ensures |r.rows| == fi.activeHeight
  {}

  function FeedMany(fi: Format, p: Parser, chunks: seq<seq<Byte>>): (q: Parser)
    requires fi.WellFormed() && |p.raster.rows| == fi.activeHeight
    ensures |q.raster.rows| == fi.activeHeight
    decreases |chunks|
  {
    if chunks == [] then p else FeedMany(fi, FeedOf(fi, p, chunks[0]), chunks[1..])
  }

  function Joined(chunks: seq<seq<Byte>>): seq<Byte> {
    if chunks == [] then [] else chunks[0] + Joined(chunks[1..])
  }

  /** Any splitting of a stream, up to any point in it: the parser is waiting, or it is
    * in step, every frame it has handed on is right and no others are. */
  lemma {:induction false} AnySplitting(fi: Format, pics: seq<Picture>, p: Parser, chunks: seq<seq<Byte>>, rest: seq<Byte>,
                                        k: nat, e: nat)
      returns (k2: nat, e2: nat)
    requires Valid(fi, pics) && pics != []
    requires Waiting(fi, pics, p, Joined(chunks) + rest) || Following(fi, pics, p, Joined(chunks) + rest, k, e)
    ensures |p.raster.rows| == fi.activeHeight
    ensures var q := FeedMany(fi, p, chunks);
            Waiting(fi, pics, q, rest) || Following(fi, pics, q, rest, k2, e2)
    decreases |chunks|
  {
    hide Unpack, Tail, Format.WellFormed, FeedOf, FitsPicture, ScanBytes, Wire, Waiting, Following;
    k2, e2 := k, e;
    if chunks == [] {
      RowsOf(fi, pics, p, Joined(chunks) + rest, k, e);
      assert Joined(chunks) + rest == rest;
    } else {
      var later := Joined(chunks[1..]) + rest;
      assert Joined(chunks) + rest == chunks[0] + later;
      if Waiting(fi, pics, p, Joined(chunks) + rest) {
        k2, e2 := FeedWaiting(fi, pics, p, chunks[0], later);
      } else {
        k2, e2 := FeedFollowing(fi, pics, p, chunks[0], later, k, e);
      }
      k2, e2 := AnySplitting(fi, pics, FeedOf(fi, p, chunks[0]), chunks[1..], rest, k2, e2);
    }
  }

  lemma {:induction false} RowsOf(fi: Format, pics: seq<Picture>, p: Parser, rest: seq<Byte>, k: nat, e: nat)
    requires Valid(fi, pics) && (Waiting(fi, pics, p, rest) || Following(fi, pics, p, rest, k, e))
    ensures |p.raster.rows| == fi.activeHeight
  {
    hide Wire, Tail, Unpack;
  }

  /** However the bytes of a stream are split up, every picture comes back, in order. */
  lemma {:induction false} BuildPackParse(fi: Format, pics: seq<Picture>, chunks: seq<seq<Byte>>)
    requires Valid(fi, pics) && pics != [] && Joined(chunks) == Wire(fi, pics)
    ensures var q := FeedMany(fi, NewParser(fi), chunks);
            q.locked && q.lineErrors == 0 && q.raster.out == ShownUpTo(fi, pics, |pics|)
  {
    hide Unpack, FeedOf, Wire, ShownUpTo, FeedMany;
    assert Joined(chunks) + [] == Wire(fi, pics);
    assert Waiting(fi, pics, NewParser(fi), Joined(chunks) + []);
    var k, e := AnySplitting(fi, pics, NewParser(fi), chunks, [], 0, 1);
    WireIsLong(fi, pics);
    EndOfStream(fi, pics, FeedMany(fi, NewParser(fi), chunks), k, e);
  }

  lemma {:induction false} WireIsLong(fi: Format, pics: seq<Picture>)
    requires Valid(fi, pics) && pics != []
    ensures |Wire(fi, pics)| >= ScanBytes(fi)
  {
    hide FrameLine, FitsPicture;
    var groups := StreamPacks(fi, pics, 0, 1);
    PackLength(StreamFrom(fi, pics, 0, 1), groups);
    var l := fi.LineWords();
    assert |StreamFrom(fi, pics, 0, 3)| >= 2 * l;
    assert |StreamFrom(fi, pics, 0, 1)| >= 4 * l;
  }

  lemma {:induction false} MoreToCome(fi: Format, pics: seq<Picture>, k: nat, e: nat)
    requires Valid(fi, pics) && k < |pics| && 1 <= e <= fi.totalLines && NextFrame(fi, k, e) < |pics|
    ensures |Tail(fi, pics, k, e)| >= fi.LineWords()
  {
    hide FrameLine, Post, ActiveOf, FitsPicture;
    var k2, e2 := NextFrame(fi, k, e), NextLine(fi, e);
    assert StreamFrom(fi, pics, k2, e2) == FrameLine(fi, pics[k2], e2) + StreamFrom(fi, pics, k2, e2 + 1);
    assert StreamFrom(fi, pics, k, e + 1) == StreamFrom(fi, pics, k2, e2);
  }

  /** With nothing left to come, a parser in step has consumed every whole unit. */
  lemma {:induction false} EndOfStream(fi: Format, pics: seq<Picture>, p: Parser, k: nat, e: nat)
    requires Valid(fi, pics) && pics != []
    requires Waiting(fi, pics, p, []) || Following(fi, pics, p, [], k, e)
    requires |Wire(fi, pics)| >= ScanBytes(fi)
    ensures p.locked && p.lineErrors == 0 && p.raster.out == ShownUpTo(fi, pics, |pics|)
  {
    hide Wire, FrameLine, ShownUpTo, FitsPicture, CountAt, RowAt, LineOfRow;
    assert p.bytes + [] == p.bytes;
    assert !Waiting(fi, pics, p, []);
    assert Unpack(p.bytes) == [];
    assert |Tail(fi, pics, k, e)| < fi.LineWords();
    if NextFrame(fi, k, e) < |pics| { MoreToCome(fi, pics, k, e); }
    assert k + 1 == |pics| && e == fi.totalLines;
    RowsMore(fi, fi.activeHeight - 1);
  }

  /** What comes back: on HD every picture exactly, with every line recovered; on SD
    * every picture after the first, and the first but for its top row. */
  lemma {:induction false} ShownIsExact(fi: Format, pics: seq<Picture>, i: nat)
    requires Valid(fi, pics) && i < |pics|
    ensures fi.isHd || i > 0 ==> ShownOf(fi, pics, i) == Shown(pics[i], fi.activeHeight, i)
    ensures !fi.isHd && i == 0 ==>
              fi.activeHeight > 0 && ShownOf(fi, pics, i) == Shown(pics[0][0 := Zeros(fi)], fi.activeHeight - 1, 0)
  {}
}
