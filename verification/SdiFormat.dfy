/** Raster geometry: the format table, and what every raster and every use of a
  * raster relies on about it. */
module SdiFormat {

  datatype Scan = Progressive | Interlaced | SegmentedFrame

  datatype Format = Format(
    activeWidth: nat, activeHeight: nat,
    totalSamples: nat, totalLines: nat,
    activeStartF1: nat, activeStartF2: nat, activeLinesPerField: nat,
    field1StartLine: nat, field2StartLine: nat,
    scan: Scan,
    rateNum: nat, rateDen: nat,
    frameCode: nat, frateCode: nat, sampleCode: nat, cfCode: nat,
    isHd: bool)
  {
    predicate InterlacedOnWire() { scan != Progressive }

    /** Four-word packing groups in one line of the multiplexed stream. */
    function LineGroups(): nat { totalSamples / 2 }

    function LineWords(): nat { totalSamples * 2 }

    /** EAV, and on HD the line-number and CRC words. */
    function PostActiveWords(): nat { if isHd then (4 + 2 + 2) * 2 else 4 }

    function SavWords(): nat { if isHd then 4 * 2 else 4 }

    /** The counts and line numbers fit together as every use of a raster needs them to. */
    predicate WellFormed() {
      && totalSamples == 2 * LineGroups() && 64 <= totalSamples < 8192
      && 2 <= activeWidth && activeWidth % 2 == 0
      && activeWidth * 2 + PostActiveWords() + SavWords() <= LineWords()
      && 16 <= totalLines < 2048
      && 1 < activeStartF1
      && (if InterlacedOnWire() then
            && activeHeight == 2 * activeLinesPerField && 1 <= activeLinesPerField
            && activeStartF1 + activeLinesPerField < activeStartF2
            && activeStartF2 + activeLinesPerField <= totalLines + 1
            && field1StartLine <= activeStartF1
            && activeStartF1 + activeLinesPerField <= field2StartLine <= activeStartF2
          else
            && activeHeight == activeLinesPerField && 1 <= activeLinesPerField
            && activeStartF1 + activeLinesPerField <= totalLines + 1)
      && (!isHd ==> scan == Interlaced)
    }
  }

  const TABLE: seq<Format> := [
    Format(720, 576, 864, 625, 23, 336, 288, 1, 313, Interlaced, 25, 1, 0x11, 0x18, 1, 1, false),
    Format(720, 486, 858, 525, 21, 283, 243, 4, 266, Interlaced, 30000, 1001, 0x10, 0x17, 1, 1, false),
    Format(1920, 1080, 2640, 1125, 21, 584, 540, 1, 564, Interlaced, 25, 1, 0x20, 0x18, 1, 2, true),
    Format(1920, 1080, 2200, 1125, 21, 584, 540, 1, 564, Interlaced, 30000, 1001, 0x20, 0x17, 1, 3, true),
    Format(1920, 1080, 2200, 1125, 21, 584, 540, 1, 564, Interlaced, 30, 1, 0x20, 0x16, 1, 2, true),
    Format(1920, 1080, 2640, 1125, 21, 584, 540, 1, 564, SegmentedFrame, 25, 1, 0x22, 0x18, 1, 2, true),
    Format(1920, 1080, 2640, 1125, 42, 0, 1080, 0, 0, Progressive, 25, 1, 0x21, 0x18, 1, 2, true),
    Format(1920, 1080, 2200, 1125, 42, 0, 1080, 0, 0, Progressive, 30000, 1001, 0x21, 0x17, 1, 3, true),
    Format(1920, 1080, 2200, 1125, 42, 0, 1080, 0, 0, Progressive, 30, 1, 0x21, 0x16, 1, 2, true),
    Format(1920, 1080, 2640, 1125, 42, 0, 1080, 0, 0, Progressive, 50, 1, 0x21, 0x12, 1, 2, true),
    Format(1920, 1080, 2200, 1125, 42, 0, 1080, 0, 0, Progressive, 60000, 1001, 0x21, 0x11, 1, 3, true),
    Format(1920, 1080, 2200, 1125, 42, 0, 1080, 0, 0, Progressive, 60, 1, 0x21, 0x10, 1, 2, true),
    Format(1280, 720, 1980, 750, 26, 0, 720, 0, 0, Progressive, 50, 1, 0x30, 0x12, 1, 2, true),
    Format(1280, 720, 1650, 750, 26, 0, 720, 0, 0, Progressive, 60000, 1001, 0x30, 0x11, 1, 3, true),
    Format(1280, 720, 1650, 750, 26, 0, 720, 0, 0, Progressive, 60, 1, 0x30, 0x10, 1, 2, true)]

  /** Every format of the table meets what the rasters rely on. */
  lemma TableIsWellFormed(i: nat)
    requires i < |TABLE|
    ensures TABLE[i].WellFormed() && TABLE[i].cfCode != 0
  {}

  /** Every format's samples come at 13.5 MHz on SD and at 74.25 or 148.5 MHz on HD, where the
    * rates over 1001 come at that over 1.001. */
  lemma SampleClocks(i: nat)
    requires i < |TABLE|
    ensures var fi := TABLE[i];
            var samples := fi.totalSamples * fi.totalLines * fi.rateNum;
            if !fi.isHd then samples == 13_500_000 * fi.rateDen
            else
              && (fi.rateDen == 1 || fi.rateDen == 1001)
              && (fi.rateDen == 1 ==> samples == 74_250_000 || samples == 148_500_000)
              && (fi.rateDen == 1001 ==> samples == 74_250_000_000 || samples == 148_500_000_000)
  {}

  /** The picture lines of every format: the first of each field. */
  lemma PictureLines()
    ensures forall i :: 0 <= i < |TABLE| ==>
              var fi := TABLE[i];
              if fi.scan != Progressive then
                (fi.totalLines, fi.activeStartF1, fi.activeStartF2, fi.activeLinesPerField)
                in {(625, 23, 336, 288), (525, 21, 283, 243), (1125, 21, 584, 540)}
              else (fi.totalLines, fi.activeStartF1, fi.activeLinesPerField) in {(1125, 42, 1080), (750, 26, 720)}
  {}

  datatype LineFlags = LineFlags(f: bool, v: bool)

  predicate InField(line: nat, start: nat, count: nat) {
    start <= line < start + count
  }

  function LineFlagsOf(fi: Format, line: nat): LineFlags {
    if line < 1 || line > fi.totalLines then LineFlags(false, false)
    else if fi.InterlacedOnWire() then
      var f := line >= fi.field2StartLine || (fi.field1StartLine > 1 && line < fi.field1StartLine);
      LineFlags(f, !(InField(line, fi.activeStartF1, fi.activeLinesPerField)
                     || InField(line, fi.activeStartF2, fi.activeLinesPerField)))
    else
      LineFlags(false, !InField(line, fi.activeStartF1, fi.activeLinesPerField))
  }

  /** The row of the picture that a raster line carries, or -1. */
  function ActiveRowForLine(fi: Format, line: int): int {
    if line < 1 || line > fi.totalLines then -1
    else if !fi.InterlacedOnWire() then
      var row := line - fi.activeStartF1;
      if 0 <= row < fi.activeHeight then row else -1
    else
      var r1 := line - fi.activeStartF1;
      var r2 := line - fi.activeStartF2;
      if 0 <= r1 < fi.activeLinesPerField then r1 * 2
      else if 0 <= r2 < fi.activeLinesPerField then r2 * 2 + 1
      else -1
  }

  /** The raster line that carries a row: the inverse of `ActiveRowForLine`. */
  function LineOfRow(fi: Format, row: nat): nat {
    if !fi.InterlacedOnWire() then fi.activeStartF1 + row
    else if row % 2 == 0 then fi.activeStartF1 + row / 2
    else fi.activeStartF2 + row / 2
  }

  /** The rows of a picture from top to bottom: the first field has the even ones and the second
    * the odd, or one field has them all. */
  lemma RowsInOrder(fi: Format, k: nat)
    requires fi.WellFormed() && k < fi.activeLinesPerField
    ensures fi.scan == Progressive ==> ActiveRowForLine(fi, fi.activeStartF1 + k) == k
    ensures fi.scan != Progressive ==>
              ActiveRowForLine(fi, fi.activeStartF1 + k) == 2 * k && ActiveRowForLine(fi, fi.activeStartF2 + k) == 2 * k + 1
  {}

  /** Rows and the lines that carry them correspond one to one, and the V flag marks
    * exactly the lines without a row. */
  lemma RowsAndLines(fi: Format, row: nat, line: nat)
    requires fi.WellFormed() && row < fi.activeHeight && 1 <= line <= fi.totalLines
    ensures 1 < LineOfRow(fi, row) <= fi.totalLines
    ensures ActiveRowForLine(fi, LineOfRow(fi, row)) == row
    ensures ActiveRowForLine(fi, line) == row <==> line == LineOfRow(fi, row)
    ensures LineFlagsOf(fi, line).v <==> ActiveRowForLine(fi, line) < 0
  {}
}
