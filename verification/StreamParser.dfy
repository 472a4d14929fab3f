/** Recovery of pictures from a stream of packed words: byte phase, line lock, and one
  * EAV-to-EAV unit after another. */
module StreamParser {
  import opened Wrappers
  import opened SdiFormat
  import opened Bitpack
  import opened SdiLine

  // ---------------------------------------------------------------------------
  // What one unit does to the picture
  // ---------------------------------------------------------------------------

  /** A frame handed on: its rows, how many were written since the last, its number. */
  datatype Shown = Shown(rows: seq<seq<Byte>>, linesRecovered: nat, index: nat)

  /** The SD line count, the picture being assembled, and the frames handed on. */
  datatype Raster = Raster(ended: nat, anchored: bool, prevV: int, rows: seq<seq<Byte>>,
                           recovered: nat, have: bool, emitted: nat, out: seq<Shown>)

  /** Eight-bit samples from words. */
  function Samples(w: seq<Word>): (r: seq<Byte>)
    ensures |r| == |w|
  {
    seq(|w|, i requires 0 <= i < |w| => w[i] % 1024 / 4)
  }

  function ToWords(b: seq<Byte>): (r: seq<Word>)
    ensures |r| == |b| && Clean(r)
  {
    seq(|b|, i requires 0 <= i < |b| => var x: nat := b[i]; x * 4)
  }

  lemma {:induction false} SamplesOfWords(b: seq<Byte>)
    ensures Samples(ToWords(b)) == b
  {}

  /** SD carries no line number: the count is set where V falls and runs on from there. */
  function Count(fi: Format, r: Raster, f: bool, v: bool): Raster {
    var counted :=
      if !v && r.prevV == 1 then
        r.(ended := if f then fi.activeStartF2 else fi.activeStartF1, anchored := true)
      else if r.anchored then r.(ended := if r.ended + 1 > fi.totalLines then 1 else r.ended + 1)
      else r;
    counted.(prevV := if v then 1 else 0)
  }

  /** The active words of a unit go to the row of the line they belong to; the last row
    * of the picture completes a frame. */
  function Place(fi: Format, r: Raster, activeLine: nat, active: seq<Word>): (s: Raster)
    requires |r.rows| == fi.activeHeight
    ensures |s.rows| == fi.activeHeight
  {
    var row := ActiveRowForLine(fi, activeLine);
    var s := if 0 <= row < fi.activeHeight then
               r.(rows := r.rows[row := Samples(active)], recovered := r.recovered + 1, have := true)
             else r;
    if s.have && row == fi.activeHeight - 1 then
      s.(out := s.out + [Shown(s.rows, s.recovered, s.emitted)], emitted := s.emitted + 1,
         recovered := 0, have := false)
    else s
  }

  function Consume(fi: Format, r: Raster, unit: seq<Word>): (s: Raster)
    requires fi.WellFormed() && |unit| == fi.LineWords() && |r.rows| == fi.activeHeight
    ensures |s.rows| == fi.activeHeight
  {
    var active := unit[fi.LineWords() - fi.activeWidth * 2..];
    if fi.isHd then Place(fi, r, LineNumberFrom(unit[8], unit[10]) + 1, active)
    else
      var c := Count(fi, r, XyzF(unit[3]), XyzV(unit[3]));
      if !c.anchored then c else Place(fi, c, c.ended + 1, active)
  }

  // ---------------------------------------------------------------------------
  // Lock
  // ---------------------------------------------------------------------------

  /** The first place from `i` on where an EAV is seen. */
  function FirstEav(fi: Format, w: seq<Word>, i: nat): (r: Option<nat>)
    requires i <= |w|
    ensures r.Some? ==> i <= r.value < |w| && IsEav(fi, w[r.value..])
    ensures forall k :: i <= k < (if r.Some? then r.value else |w|) ==> !IsEav(fi, w[k..])
    decreases |w| - i
  {
    if i == |w| then None else if IsEav(fi, w[i..]) then Some(i) else FirstEav(fi, w, i + 1)
  }

  function ScanWords(fi: Format): nat {
    if fi.LineWords() * 2 + 64 < 65536 then fi.LineWords() * 2 + 64 else 65536
  }

  function ScanBytes(fi: Format): (r: nat)
    ensures r >= 5
  {
    ScanWords(fi) * 10 / 8 + 5
  }

  /** The phase is looked for once there are the bytes of two lines and sixty-four words, five to
    * four words, and five more. */
  lemma ScanIsTwoLines(fi: Format)
    requires fi.LineWords() <= 32736 && fi.LineWords() % 2 == 0
    ensures 4 * (ScanBytes(fi) - 5) == 5 * (2 * fi.LineWords() + 64)
  {
    var half := fi.LineWords() / 2;
    assert ScanWords(fi) * 10 == 8 * (5 * half + 80);
  }

  /** The words seen at a byte phase. */
  function Probe(fi: Format, bytes: seq<Byte>, phase: nat): (r: seq<Word>)
    requires phase <= |bytes|
  {
    var groups := (|bytes| - phase) / 5;
    var words := Unpack(bytes[phase..phase + groups * 5]);
    if |words| <= ScanWords(fi) then words else words[..ScanWords(fi)]
  }

  function PhaseFrom(fi: Format, bytes: seq<Byte>, phase: nat): (r: Option<nat>)
    requires |bytes| >= 5
    ensures r.Some? ==> phase <= r.value < 5
    decreases 5 - phase
  {
    if phase >= 5 then None
    else if FirstEav(fi, Probe(fi, bytes, phase), 0).Some? then Some(phase)
    else PhaseFrom(fi, bytes, phase + 1)
  }

  /** Bytes waiting, words waiting, the two stages of lock, and the picture. */
  datatype Parser = Parser(bytes: seq<Byte>, pending: seq<Word>, phaseKnown: bool, locked: bool,
                           lineErrors: nat, raster: Raster)

  function PreambleOk(fi: Format, unit: seq<Word>): bool
    requires |unit| >= 3
  {
    if fi.isHd then unit[0] == SYNC && unit[1] == SYNC && unit[2] == 0
    else unit[0] == SYNC && unit[1] == 0 && unit[2] == 0
  }

  function FindPhase(fi: Format, p: Parser): Parser {
    if |p.bytes| < ScanBytes(fi) then p
    else match PhaseFrom(fi, p.bytes, 0)
      case Some(phase) => p.(bytes := p.bytes[phase..], phaseKnown := true)
      case None =>
        if |p.bytes| > ScanBytes(fi) * 4 then p.(bytes := p.bytes[|p.bytes| - ScanBytes(fi) * 2..]) else p
  }

  /** Hunt for the next EAV; failing that keep what could still begin one. */
  function FindLine(fi: Format, p: Parser): (q: Parser)
    ensures |q.pending| <= |p.pending| && q.raster == p.raster
  {
    match FirstEav(fi, p.pending, 0)
    case Some(i) => p.(pending := p.pending[i..], locked := true)
    case None =>
      if |p.pending| > Need(fi) then p.(pending := p.pending[|p.pending| - (Need(fi) - 1)..]) else p
  }

  /** All whole units, one after another; a unit that does not start as one loses the lock. */
  function Drain(fi: Format, p: Parser): (q: Parser)
    requires fi.WellFormed() && |p.raster.rows| == fi.activeHeight
    ensures |q.raster.rows| == fi.activeHeight
    decreases |p.pending|
  {
    if |p.pending| < fi.LineWords() then p
    else
      var unit := p.pending[..fi.LineWords()];
      if PreambleOk(fi, unit) then
        Drain(fi, p.(pending := p.pending[fi.LineWords()..], raster := Consume(fi, p.raster, unit)))
      else
        var lost := p.(lineErrors := p.lineErrors + 1, locked := false,
                       raster := p.raster.(have := false), pending := p.pending[1..]);
        var found := FindLine(fi, lost);
        if found.locked then Drain(fi, found) else lost.(phaseKnown := false, pending := [])
  }

  function Unpacked(p: Parser): Parser {
    var n := |p.bytes| / 5 * 5;
    p.(bytes := p.bytes[n..], pending := p.pending + Unpack(p.bytes[..n]))
  }

  /** One call of `feed`, on any bytes whatever. */
  function FeedOf(fi: Format, p: Parser, chunk: seq<Byte>): (q: Parser)
    requires fi.WellFormed() && |p.raster.rows| == fi.activeHeight
    ensures |q.raster.rows| == fi.activeHeight
  {
    var fed := p.(bytes := p.bytes + chunk);
    var phased := if fed.phaseKnown then fed else FindPhase(fi, fed);
    if !phased.phaseKnown then phased
    else
      var ready := Unpacked(phased);
      var lined := if ready.locked then ready else FindLine(fi, ready);
      if !lined.locked then lined else Drain(fi, lined)
  }

  function NewRaster(fi: Format): Raster {
    Raster(0, false, -1, seq(fi.activeHeight, i => seq(fi.activeWidth * 2, k => 0)), 0, false, 0, [])
  }

  function NewParser(fi: Format): Parser { Parser([], [], false, false, 0, NewRaster(fi)) }

  // ---------------------------------------------------------------------------
  // The class
  // ---------------------------------------------------------------------------

  /** `raster.out` stands for the vector that the caller hands to every call. */
  class SdiStreamParser {
    const fi: Format
    var bytes: seq<Byte>
    var pending: seq<Word>
    var pendingPos: nat
    var phaseKnown: bool
    var locked: bool
    var lineErrors: nat
    var raster: Raster

    ghost predicate Valid()
      reads this
    {
      fi.WellFormed() && pendingPos <= |pending| && |raster.rows| == fi.activeHeight
    }

    ghost function Value(): Parser
      requires pendingPos <= |pending|
      reads this
    {
      Parser(bytes, pending[pendingPos..], phaseKnown, locked, lineErrors, raster)
    }

    constructor (format: Format)
      requires format.WellFormed()
      ensures Valid() && fi == format && Value() == NewParser(format)
    {
      fi := format;
      bytes, pending, pendingPos, phaseKnown, locked, lineErrors := [], [], 0, false, false, 0;
      raster := NewRaster(format);
    }

    method CompactPending()
      requires Valid()
      modifies `pending, `pendingPos
      ensures Valid() && Value() == old(Value()) && pendingPos == 0
    {
      if pendingPos == 0 { return; }
      pending := pending[pendingPos..];
      pendingPos := 0;
    }

    /** Scan the words from the cursor on for an EAV. */
    method ScanEav(words: seq<Word>, from: nat) returns (at: Option<nat>)
      requires from <= |words|
      ensures at == FirstEav(fi, words, from)
    {
      var i := from;
      while i + Need(fi) <= |words|
        invariant from <= i <= |words|
        invariant FirstEav(fi, words, from) == FirstEav(fi, words, i)
      {
        if IsEav(fi, words[i..]) { return Some(i); }
        i := i + 1;
      }
      TooShortForEav(fi, words, i);
      return None;
    }

    method FindBytePhase() returns (ok: bool)
      requires Valid()
      modifies `bytes, `phaseKnown
      ensures Valid() && Value() == FindPhase(fi, old(Value()))
      ensures ok ==> phaseKnown
      ensures !ok ==> phaseKnown == old(phaseKnown)
    {
      hide ScanBytes, Probe, FirstEav, Format.WellFormed;
      if |bytes| < ScanBytes(fi) { return false; }
      var phase := 0;
      while phase < 5
        invariant |bytes| >= 5
        invariant phase <= 5 && PhaseFrom(fi, bytes, 0) == PhaseFrom(fi, bytes, phase)
        invariant bytes == old(bytes) && phaseKnown == old(phaseKnown)
      {
        var probe := Probe(fi, bytes, phase);
        var at := ScanEav(probe, 0);
        if at.Some? {
          if phase > 0 { bytes := bytes[phase..]; }
          phaseKnown := true;
          return true;
        }
        phase := phase + 1;
      }
      if |bytes| > ScanBytes(fi) * 4 {
        bytes := bytes[|bytes| - ScanBytes(fi) * 2..];
      }
      return false;
    }

    method FindLineLock() returns (ok: bool)
      requires Valid()
      modifies `pendingPos, `locked
      ensures Valid() && Value() == FindLine(fi, old(Value()))
      ensures ok ==> locked
      ensures !ok ==> locked == old(locked)
    {
      var at := ScanEav(pending[pendingPos..], 0);
      if at.Some? {
        pendingPos, locked := pendingPos + at.value, true;
        return true;
      }
      var n := |pending| - pendingPos;
      if n > Need(fi) { pendingPos := pendingPos + (n - (Need(fi) - 1)); }
      return false;
    }

    method ConsumeLine(unit: seq<Word>)
      requires Valid() && |unit| == fi.LineWords()
      modifies `raster
      ensures Valid() && raster == Consume(fi, old(raster), unit)
    {
      hide Samples, ActiveRowForLine, XyzF, XyzV, LineNumberFrom;
      var r := raster;
      var ended;
      if fi.isHd {
        ended := LineNumberFrom(unit[8], unit[10]);
      } else {
        var f, v := XyzF(unit[3]), XyzV(unit[3]);
        if !v && r.prevV == 1 {
          r := r.(ended := if f then fi.activeStartF2 else fi.activeStartF1, anchored := true);
        } else if r.anchored {
          r := r.(ended := r.ended + 1);
          if r.ended > fi.totalLines { r := r.(ended := 1); }
        }
        r := r.(prevV := if v then 1 else 0);
        if !r.anchored {
          raster := r;
          return;
        }
        ended := r.ended;
      }
      var row := ActiveRowForLine(fi, ended + 1);
      if 0 <= row < fi.activeHeight {
        r := r.(rows := r.rows[row := Samples(unit[fi.LineWords() - fi.activeWidth * 2..])],
                recovered := r.recovered + 1, have := true);
      }
      if r.have && row == fi.activeHeight - 1 {
        r := r.(out := r.out + [Shown(r.rows, r.recovered, r.emitted)], emitted := r.emitted + 1);
        r := r.(recovered := 0, have := false);
      }
      raster := r;
    }

    /** Unpack whole five-byte groups; the remainder stays for the next call. */
    method UnpackGroups()
      requires Valid()
      modifies `bytes, `pending
      ensures Valid() && Value() == Unpacked(old(Value())) && phaseKnown == old(phaseKnown)
    {
      assert Unpack([]) == [];
      hide Unpack, Format.WellFormed;
      var n := |bytes| / 5 * 5;
      assert n == 0 ==> bytes[..n] == [];
      if n > 0 {
        pending := pending + Unpack(bytes[..n]);
        bytes := bytes[n..];
      }
    }

    /** Take in some bytes.  The answer says whether the stream is being followed. */
    method Feed(chunk: seq<Byte>) returns (ok: bool)
      requires Valid()
      modifies this
      ensures Valid() && Value() == FeedOf(fi, old(Value()), chunk)
      ensures ok ==> locked && phaseKnown && |pending| - pendingPos < fi.LineWords()
    {
      hide FindLine, FindPhase, Drain, Unpacked, Format.WellFormed;
      bytes := bytes + chunk;
      CompactPending();
      if !phaseKnown {
        ok := FindBytePhase();
        if !ok { return; }
      }
      UnpackGroups();
      if !locked {
        ok := FindLineLock();
        if !ok { return; }
      }
      ok := DrainLines();
    }

    /** Consume every whole unit, hunting for the next EAV where one does not start as it should. */
    method DrainLines() returns (ok: bool)
      requires Valid() && locked && phaseKnown
      modifies this
      ensures Valid() && Value() == Drain(fi, old(Value()))
      ensures ok ==> locked && phaseKnown && |pending| - pendingPos < fi.LineWords()
    {
      hide Consume, FindLine, Drain, Format.WellFormed, PreambleOk;
      ghost var start := Value();
      while |pending| - pendingPos >= fi.LineWords()
        invariant Valid() && locked && phaseKnown && Drain(fi, start) == Drain(fi, Value())
        decreases |pending| - pendingPos
      {
        ghost var here := Value();
        DrainStep(fi, here);
        LineIsLong(fi);
        var unit := pending[pendingPos..pendingPos + fi.LineWords()];
        assert unit == here.pending[..fi.LineWords()];
        if !PreambleOk(fi, unit) {
          lineErrors, locked, raster, pendingPos := lineErrors + 1, false, raster.(have := false), pendingPos + 1;
          assert pending[pendingPos..] == here.pending[1..];
          ok := FindLineLock();
          if !ok {
            phaseKnown, pending, pendingPos := false, [], 0;
            return false;
          }
        } else {
          ConsumeLine(unit);
          pendingPos := pendingPos + fi.LineWords();
          assert pending[pendingPos..] == here.pending[fi.LineWords()..];
        }
      }
      DrainStep(fi, Value());
      ok := true;
    }
  }

  lemma LineIsLong(fi: Format)
    requires fi.WellFormed()
    ensures fi.LineWords() >= 12
  {}

  lemma {:induction false} DrainStep(fi: Format, p: Parser)
    requires fi.WellFormed() && |p.raster.rows| == fi.activeHeight
    ensures fi.LineWords() >= 12
    ensures |p.pending| < fi.LineWords() ==> Drain(fi, p) == p
    ensures |p.pending| >= fi.LineWords() ==>
              var unit := p.pending[..fi.LineWords()];
              var lost := p.(lineErrors := p.lineErrors + 1, locked := false,
                             raster := p.raster.(have := false), pending := p.pending[1..]);
              var found := FindLine(fi, lost);
              Drain(fi, p) ==
                if PreambleOk(fi, unit) then
                  Drain(fi, p.(pending := p.pending[fi.LineWords()..], raster := Consume(fi, p.raster, unit)))
                else if found.locked then Drain(fi, found) else lost.(phaseKnown := false, pending := [])
  {
    hide Consume, FindLine, PreambleOk;
  }

  /** A line that is lost or lengthened is no more than that: where the next unit does not start
    * as one, the parser counts one error, gives up the picture it was assembling, and goes on
    * at the first EAV there is, however much lies before it. */
  lemma {:induction false} Resyncs(fi: Format, p: Parser, junk: seq<Word>, rest: seq<Word>)
    requires fi.WellFormed() && |p.raster.rows| == fi.activeHeight && p.pending == junk + rest
    requires junk != [] && |junk + rest| >= fi.LineWords()
    requires (junk + rest)[..3] != if fi.isHd then [0x3FF, 0x3FF, 0] else [0x3FF, 0, 0]
    requires IsEav(fi, rest) && forall i :: 0 < i < |junk| ==> !IsEav(fi, (junk + rest)[i..])
    ensures Drain(fi, p)
            == Drain(fi, p.(pending := rest, lineErrors := p.lineErrors + 1, locked := true,
                            raster := p.raster.(have := false)))
  {
    hide IsEav, Consume, Drain, PreambleOk;
    PreambleIs(fi, (junk + rest)[..fi.LineWords()]);
    assert (junk + rest)[..fi.LineWords()][..3] == (junk + rest)[..3];
    DrainStep(fi, p);
    var all := p.pending[1..];
    forall i | 0 <= i < |junk| - 1 ensures !IsEav(fi, all[i..]) { assert all[i..] == (junk + rest)[i + 1..]; }
    assert all[|junk| - 1..] == rest;
    EavIsSome(fi, rest);
    FirstEavAt(fi, all, 0, |junk| - 1);
  }

  lemma {:induction false} PreambleIs(fi: Format, unit: seq<Word>)
    requires |unit| >= 3
    ensures PreambleOk(fi, unit) <==> unit[..3] == if fi.isHd then [0x3FF, 0x3FF, 0] else [0x3FF, 0, 0]
  {
    assert unit[..3] == [unit[0], unit[1], unit[2]];
  }

  lemma EavIsSome(fi: Format, w: seq<Word>)
    requires IsEav(fi, w)
    ensures w != []
  {}

  lemma {:induction false} FirstEavAt(fi: Format, w: seq<Word>, i: nat, k: nat)
    requires i <= k < |w| && IsEav(fi, w[k..]) && forall j :: i <= j < k ==> !IsEav(fi, w[j..])
    ensures FirstEav(fi, w, i) == Some(k)
    decreases k - i
  {
    hide IsEav;
    if i < k { FirstEavAt(fi, w, i + 1, k); }
  }

  lemma {:induction false} TooShortForEav(fi: Format, w: seq<Word>, i: nat)
    requires i <= |w| < i + Need(fi)
    ensures FirstEav(fi, w, i) == None
    decreases |w| - i
  {
    if i < |w| { TooShortForEav(fi, w, i + 1); }
  }
}
