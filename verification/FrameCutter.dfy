/** Cutting frames out of a pass on the RTP marker, and where a pass ends. */
module FrameCutter {
  import opened Wrappers
  import opened Merge

  /** The frame size, the raster check and the tolerance for unusable frames. */
  datatype Rules = Rules(frameBytes: nat, rasterOk: seq<Byte> -> bool, tolerance: int)

  // ---------------------------------------------------------------------------
  // The collection in progress
  // ---------------------------------------------------------------------------

  /** The bytes collected since the last marker, if no hole came in between. */
  function Collected(v: seq<Taken>): Option<seq<Byte>> {
    if v == [] then None
    else
      var front, t := v[..|v| - 1], v[|v| - 1];
      if t.Hole? then None
      else if t.marker then Some([])
      else match Collected(front)
        case None => None
        case Some(b) => Some(b + t.payload)
  }

  function Payloads(v: seq<Taken>): seq<Byte> {
    if v == [] then []
    else
      var t := v[|v| - 1];
      Payloads(v[..|v| - 1]) + if t.Data? then t.payload else []
  }

  /** Slot `i` is a marker and every slot after it up to `j` is a plain datagram. */
  ghost predicate OpenRun(v: seq<Taken>, i: int, j: int) {
    && 0 <= i < j <= |v| && v[i].Data? && v[i].marker
    && (forall k :: i < k < j ==> v[k].Data? && !v[k].marker)
  }

  /** A collection is exactly a hole-free run of datagrams strictly after a marker. */
  lemma {:induction false} CollectedIsRun(v: seq<Taken>, i: int)
    requires OpenRun(v, i, |v|)
    ensures Collected(v) == Some(Payloads(v[i + 1..]))
  {
    if i + 1 == |v| {
      assert v[i + 1..] == [];
    } else {
      var front := v[..|v| - 1];
      assert v[|v| - 1].Data? && !v[|v| - 1].marker;
      CollectedIsRun(front, i);
      assert v[i + 1..][..|v| - i - 2] == front[i + 1..];
    }
  }

  lemma {:induction false} CollectedHasRun(v: seq<Taken>)
    ensures Collected(v).Some? <==> exists i :: OpenRun(v, i, |v|)
  {
    if v != [] {
      var front, t := v[..|v| - 1], v[|v| - 1];
      CollectedHasRun(front);
      if t.Data? && t.marker {
        assert OpenRun(v, |v| - 1, |v|);
      } else if Collected(front).Some? {
        var i :| OpenRun(front, i, |front|);
        if t.Data? { assert OpenRun(v, i, |v|); }
      }
      if exists i :: OpenRun(v, i, |v|) {
        var i :| OpenRun(v, i, |v|);
        CollectedIsRun(v, i);
      }
    }
  }

  // ---------------------------------------------------------------------------
  // What a slot does to the collection
  // ---------------------------------------------------------------------------

  datatype Verdict = Nothing | Produced(frame: seq<Byte>) | BadRaster | TooShort | Holed

  function VerdictOf(rules: Rules, front: seq<Taken>, t: Taken): Verdict {
    match Collected(front)
    case None => Nothing
    case Some(b) =>
      if t.Hole? then Holed
      else if !t.marker then Nothing
      else if |b + t.payload| < rules.frameBytes then TooShort
      else if rules.rasterOk((b + t.payload)[..rules.frameBytes]) then
        Produced((b + t.payload)[..rules.frameBytes])
      else BadRaster
  }

  function Frames(rules: Rules, v: seq<Taken>): seq<seq<Byte>> {
    if v == [] then []
    else
      var front := v[..|v| - 1];
      match VerdictOf(rules, front, v[|v| - 1])
      case Produced(f) => Frames(rules, front) + [f]
      case _ => Frames(rules, front)
  }

  /** Unusable frames in a row. */
  function Bad(rules: Rules, v: seq<Taken>): nat {
    if v == [] then 0
    else
      var front := v[..|v| - 1];
      match VerdictOf(rules, front, v[|v| - 1])
      case Nothing => Bad(rules, front)
      case Produced(_) => 0
      case _ => Bad(rules, front) + 1
  }

  /** How many of the slots from `from` on spoil a frame: by the raster, by its length, or by a
    * hole in it. */
  function Spoilt(rules: Rules, v: seq<Taken>, from: nat): nat {
    if |v| <= from then 0
    else
      var n := |v| - 1;
      var d := VerdictOf(rules, v[..n], v[n]);
      Spoilt(rules, v[..n], from) + if d == BadRaster || d == TooShort || d == Holed then 1 else 0
  }

  /** The unusable frames in a row are those since the last one that came out, or since the
    * start. */
  lemma {:induction false} BadSinceLast(rules: Rules, v: seq<Taken>, from: nat)
    requires from <= |v| && (from > 0 ==> VerdictOf(rules, v[..from - 1], v[from - 1]).Produced?)
    requires forall k :: from <= k < |v| ==> !VerdictOf(rules, v[..k], v[k]).Produced?
    ensures Bad(rules, v) == Spoilt(rules, v, from)
  {
    hide VerdictOf;
    if from < |v| {
      var front := v[..|v| - 1];
      assert forall k :: 0 <= k <= |front| ==> front[..k] == v[..k];
      forall k | from <= k < |front| ensures !VerdictOf(rules, front[..k], front[k]).Produced? {
        assert front[..k] == v[..k] && front[k] == v[k];
      }
      if from > 0 { assert front[..from - 1] == v[..from - 1] && front[from - 1] == v[from - 1]; }
      BadSinceLast(rules, front, from);
    }
  }

  datatype Tally = Tally(begun: nat, produced: nat, raster: nat, short: nat, holed: nat, holes: nat, blue: nat)
  {
    function Plus(t: Tally): Tally {
      Tally(begun + t.begun, produced + t.produced, raster + t.raster, short + t.short,
            holed + t.holed, holes + t.holes, blue + t.blue)
    }
  }

  function One(b: bool): nat { if b then 1 else 0 }

  /** What one slot adds to the counters. */
  function TallyAt(w: Verdict, t: Taken): Tally {
    Tally(One(t.Data? && t.marker), One(w.Produced?), One(w.BadRaster?), One(w.TooShort?), One(w.Holed?),
          One(t.Hole?), One(t.Data? && t.blue))
  }

  function TallyOf(rules: Rules, v: seq<Taken>): Tally {
    if v == [] then Tally(0, 0, 0, 0, 0, 0, 0)
    else
      var front, t := v[..|v| - 1], v[|v| - 1];
      TallyOf(rules, front).Plus(TallyAt(VerdictOf(rules, front, t), t))
  }

  /** Every collection begun was produced, was rejected for one reason, or is the
    * one in progress. */
  lemma {:induction false} TallyBalances(rules: Rules, v: seq<Taken>)
    ensures var a := TallyOf(rules, v);
            && a.begun == a.produced + a.raster + a.short + a.holed + (if Collected(v).Some? then 1 else 0)
            && a.produced == |Frames(rules, v)|
  {
    if v != [] { TallyBalances(rules, v[..|v| - 1]); }
  }

  lemma {:induction false} FramesGrow(rules: Rules, v: seq<Taken>, k: nat)
    requires k <= |v|
    ensures Frames(rules, v[..k]) <= Frames(rules, v)
  {
    if k == |v| {
      assert v[..k] == v;
    } else {
      var front := v[..|v| - 1];
      FramesGrow(rules, front, k);
      assert front[..k] == v[..k];
    }
  }

  /** Two markers with only plain datagrams between them frame one candidate: the
    * bytes strictly after the first marker, up to and with the second.  It comes
    * out, cut to the frame size, exactly when it is long enough and its raster
    * holds; nothing else comes out at that slot. */
  lemma {:induction false} CutBetweenMarkers(rules: Rules, v: seq<Taken>, i: int, j: int)
    requires OpenRun(v, i, j) && j < |v| && v[j].Data? && v[j].marker
    ensures var whole := Payloads(v[i + 1..j + 1]);
            Frames(rules, v[..j + 1]) == Frames(rules, v[..j])
              + if |whole| >= rules.frameBytes && rules.rasterOk(whole[..rules.frameBytes])
                then [whole[..rules.frameBytes]] else []
  {
    var front, run := v[..j], v[i + 1..j + 1];
    assert OpenRun(front, i, j);
    CollectedIsRun(front, i);
    assert run[..|run| - 1] == front[i + 1..];
    assert Payloads(run) == Payloads(front[i + 1..]) + v[j].payload;
    hide Payloads, Collected, OpenRun;
    assert v[..j + 1][..j] == front;
  }

  /** No frame comes out at a slot that does not close such a run. */
  lemma {:induction false} NoCutElsewhere(rules: Rules, v: seq<Taken>, j: nat)
    requires j < |v| && !(v[j].Data? && v[j].marker && exists i :: OpenRun(v, i, j))
    ensures Frames(rules, v[..j + 1]) == Frames(rules, v[..j])
  {
    var front := v[..j];
    CollectedHasRun(front);
    assert v[..j + 1][..j] == front;
    if Collected(front).Some? {
      var i :| OpenRun(front, i, j);
      assert OpenRun(v, i, j);
    }
  }

  // ---------------------------------------------------------------------------
  // The end of a pass
  // ---------------------------------------------------------------------------

  /** Too many unusable frames in a row, noticed at a hole or a marker. */
  predicate StopsEarly(rules: Rules, v: seq<Taken>) {
    && v != []
    && (v[|v| - 1].Hole? || v[|v| - 1].marker)
    && Bad(rules, v) >= rules.tolerance
  }

  /** The first number from `n` on that meets `p`. */
  function FirstFrom(p: nat -> bool, n: nat, bound: nat): (r: nat)
    requires n <= bound && p(bound)
    ensures n <= r <= bound && p(r)
    ensures forall m :: n <= m < r ==> !p(m)
    decreases bound - n
  {
    if p(n) then n else FirstFrom(p, n + 1, bound)
  }

  type Window = w: nat | w > 0 witness 1

  /** A pass over two numbered legs, from number `first`. */
  datatype Job = Job(ua: seq<Entry>, ub: seq<Entry>, window: Window, first: nat, rules: Rules) {

    function Visited(n: nat): (r: seq<Taken>)
      ensures |r| == n
    {
      Slots(ua, ub, window, first, n)
    }

    predicate EndsEarly(n: nat) { StopsEarly(rules, Visited(n)) }

    predicate EndsFully(n: nat) { Exhausted(ua, ub, window, first + n) }

    predicate Ends(n: nat) { EndsEarly(n) || EndsFully(n) }

    /** The pass cannot visit more numbers than this. */
    function Bound(): nat {
      if LastNumber(ua, ub) < first then 0 else LastNumber(ua, ub) + 1 - first
    }

    lemma BoundEnds()
      ensures EndsFully(Bound()) && Ends(Bound())
    {
      ExhaustedAbove(ua, ub, window, first + Bound());
    }

    /** How many numbers the pass visits: where it ends for the first time. */
    function Length(): (r: nat)
      ensures r <= Bound()
    {
      BoundEnds();
      FirstFrom((n: nat) => Ends(n), 0, Bound())
    }

    /** The frames a whole pass pushes. */
    function PassFrames(): seq<seq<Byte>> {
      Frames(rules, Visited(Length()))
    }
  }

  lemma LengthEnds(job: Job)
    ensures job.Ends(job.Length())
    ensures forall m :: 0 <= m < job.Length() ==> !job.Ends(m)
  {
    hide Job.Ends;
    job.BoundEnds();
    var p: nat -> bool := (n: nat) => job.Ends(n);
    assert job.Length() == FirstFrom(p, 0, job.Bound());
    forall m: nat | m < job.Length() ensures !job.Ends(m) {
      assert !p(m);
    }
  }

  lemma LengthIs(job: Job, n: nat)
    requires job.Ends(n) && forall m :: 0 <= m < n ==> !job.Ends(m)
    ensures job.Length() == n
  {
    hide Job.Ends, Job.Length;
    LengthEnds(job);
  }

  lemma {:induction false} VisitedPrefix(job: Job, k: nat, n: nat)
    requires k <= n
    ensures job.Visited(n)[..k] == job.Visited(k)
  {
    hide Pick;
    if k < n {
      VisitedPrefix(job, k, n - 1);
      assert job.Visited(n)[..n - 1] == job.Visited(n - 1);
    }
  }

  // What a pass has pushed so far is a prefix of what it pushes in all.
  lemma PartialPass(job: Job, n: nat)
    requires n <= job.Length()
    ensures Frames(job.rules, job.Visited(n)) <= job.PassFrames()
  {
    VisitedPrefix(job, n, job.Length());
    FramesGrow(job.rules, job.Visited(job.Length()), n);
  }

  /** On followable legs a pass without early restart visits every number from the
    * first to the last either leg carries, once and in order, and at each delivers
    * what `MergeExact` says. */
  lemma FullPassVisitsAll(job: Job)
    requires Followable(job.ua, job.window) && Followable(job.ub, job.window)
    requires job.ua != [] && job.first == job.ua[0].number
    requires forall m :: 0 <= m < job.Bound() ==> !job.EndsEarly(m)
    ensures job.Length() == job.Bound() && job.EndsFully(job.Length())
    ensures job.first + job.Length() == LastNumber(job.ua, job.ub) + 1
  {
    hide StopsEarly, Exhausted;
    assert job.ua[0].number <= Highest(job.ua);
    forall m: nat | m < job.Bound() ensures !job.Ends(m) {
      ExhaustedExactlyAbove(job.ua, job.ub, job.window, job.first + m);
    }
    job.BoundEnds();
    LengthIs(job, job.Bound());
  }

  /** With a blue leg that began below zero a pass has no full end: unless it ends early its
    * cursor counts on through nearly the whole unsigned space. */
  lemma BlueBelowZeroHasNoFullEnd(job: Job, ms: seq<Media>, d: nat, m: nat)
    requires ms != [] && job.ub == Numbered(ms, Some(job.first)) && job.first < d <= 0x8000
    requires ms[0].seq16 < 0x10000 && (ms[0].seq16 - job.first + d) % 0x10000 == 0
    requires m < U64 - d
    ensures !job.EndsFully(m)
    ensures job.Length() >= U64 - d || job.EndsEarly(job.Length())
  {
    hide Job.EndsEarly, Job.Length, Exhausted, Numbered;
    BlueBelowZeroNeverEnds(job.ua, ms, job.first, d, job.window, job.first + m);
    LengthEnds(job);
    if job.Length() < U64 - d {
      BlueBelowZeroNeverEnds(job.ua, ms, job.first, d, job.window, job.first + job.Length());
    }
  }
}
