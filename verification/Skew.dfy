/** ST 2022-7 differential path delay: the slew-limited skew controller.
  *
  * Times and delays are real numbers.  Each random draw is a number `u` in [0, 1)
  * supplied from outside, so every statement holds for every outcome.
  */
module Skew {

  function Min(x: real, y: real): real { if y < x then y else x }
  function Max(x: real, y: real): real { if x < y then y else x }
  function Abs(x: real): real { if x < 0.0 then -x else x }

  datatype Settings = Settings(fixedMs: real, window: bool, windowLoMs: real, windowHiMs: real,
                               slewMsPerSec: real, dwellMaxSec: real)
  {
    predicate Enabled() { window || fixedMs != 0.0 }
    function LoMs(): real { if window then Min(windowLoMs, windowHiMs) else fixedMs }
    function HiMs(): real { if window then Max(windowLoMs, windowHiMs) else fixedMs }
    function MaxAbsMs(): real { Max(Abs(LoMs()), Abs(HiMs())) }

    /** What the engine accepts before it opens a socket. */
    predicate Accepted() {
      && 0.0 < slewMsPerSec <= 1000.0
      && 0.0 <= dwellMaxSec <= 3600.0
      && MaxAbsMs() <= 1000.0
    }
  }

  /** The limits of what is accepted, and what is just past them. */
  lemma Limits()
    ensures Settings(1000.0, false, 0.0, 0.0, 1000.0, 3600.0).Accepted()
    ensures Settings(0.0, true, -1000.0, 1000.0, 1000.0, 0.0).Accepted()
    ensures !Settings(1000.1, false, 0.0, 0.0, 1.0, 0.0).Accepted() && !Settings(-1000.1, false, 0.0, 0.0, 1.0, 0.0).Accepted()
    ensures !Settings(0.0, true, 0.0, 1000.1, 1.0, 0.0).Accepted() && !Settings(0.0, true, -1000.1, 0.0, 1.0, 0.0).Accepted()
    ensures !Settings(1.0, false, 0.0, 0.0, 0.0, 0.0).Accepted() && !Settings(1.0, false, 0.0, 0.0, 1000.1, 0.0).Accepted()
    ensures !Settings(1.0, false, 0.0, 0.0, 1.0, -0.1).Accepted() && !Settings(1.0, false, 0.0, 0.0, 1.0, 3600.1).Accepted()
  {}

  function Uniform(lo: real, hi: real, u: real): real { lo + (hi - lo) * u }

  lemma UniformInRange(lo: real, hi: real, u: real)
    requires lo <= hi && 0.0 <= u < 1.0
    ensures lo <= Uniform(lo, hi, u) <= hi
  {
    var w := hi - lo;
    assert 0.0 <= w * u;
    assert w * u <= w * 1.0 by { assert w * (1.0 - u) >= 0.0; }
  }

  /** How far the differential may move in `dt` seconds at a slew rate. */
  function Travel(slew: real, dt: real): real { slew * dt }

  lemma TravelAdds(slew: real, d: real, e: real)
    ensures Travel(slew, d + e) == Travel(slew, d) + Travel(slew, e)
  {}

  lemma TravelSign(slew: real, dt: real)
    requires slew > 0.0
    ensures dt >= 0.0 ==> Travel(slew, dt) >= 0.0
    ensures dt > 0.0 ==> Travel(slew, dt) > 0.0
  {}

  lemma TravelBound(slew: real, dt: real)
    requires slew <= 1000.0 && dt >= 0.0
    ensures Travel(slew, dt) <= 1000.0 * dt
  {
    assert (1000.0 - slew) * dt >= 0.0;
  }

  // ---------------------------------------------------------------------------
  // The controller as a state machine
  // ---------------------------------------------------------------------------

  datatype State = State(current: real, target: real, last: real, dwellUntil: real)

  /** One call of `advance`. */
  function Step(set_: Settings, s: State, now: real, u: real): State {
    var dt := now - s.last;
    var t := s.(last := now);
    if !set_.Enabled() || dt <= 0.0 then t
    else if s.current != s.target then
      var step := Travel(set_.slewMsPerSec, dt);
      if Abs(s.target - s.current) <= step then
        t.(current := s.target, dwellUntil := now + Uniform(0.0, set_.dwellMaxSec, u))
      else
        t.(current := s.current + if s.target < s.current then -step else step)
    else if set_.window && now >= s.dwellUntil then
      t.(target := Uniform(set_.LoMs(), set_.HiMs(), u))
    else t
  }

  function DelayA(s: State): real { if s.current < 0.0 then -s.current / 1000.0 else 0.0 }
  function DelayB(s: State): real { if s.current > 0.0 then s.current / 1000.0 else 0.0 }

  /** Where the differential may be: inside the configured range, or at rest when
    * skew is off. */
  ghost predicate InRange(set_: Settings, s: State) {
    if set_.Enabled() then
      set_.LoMs() <= s.current <= set_.HiMs() && set_.LoMs() <= s.target <= set_.HiMs()
    else s.current == 0.0 == s.target
  }

  lemma StepKeepsRange(set_: Settings, s: State, now: real, u: real)
    requires InRange(set_, s) && set_.slewMsPerSec > 0.0 && 0.0 <= u < 1.0
    ensures InRange(set_, Step(set_, s, now, u))
  {
    if set_.Enabled() && now > s.last {
      UniformInRange(set_.LoMs(), set_.HiMs(), u);
      TravelSign(set_.slewMsPerSec, now - s.last);
      hide Uniform, Travel;
    }
  }

  // A step moves the differential by at most the slew rate times the time passed.
  lemma StepIsSlow(set_: Settings, s: State, now: real, u: real)
    requires now >= s.last && set_.slewMsPerSec > 0.0
    ensures Abs(Step(set_, s, now, u).current - s.current) <= Travel(set_.slewMsPerSec, now - s.last)
  {
    TravelSign(set_.slewMsPerSec, now - s.last);
    hide Travel, Uniform;
    assert now == s.last ==> Step(set_, s, now, u).current == s.current;
  }

  /** A clock reading and the draw that the call made at it may use. */
  datatype Tick = Tick(now: real, u: real)

  function After(set_: Settings, s: State, ticks: seq<Tick>): State {
    if ticks == [] then s
    else
      var t := ticks[|ticks| - 1];
      Step(set_, After(set_, s, ticks[..|ticks| - 1]), t.now, t.u)
  }

  /** The steady clock does not run backwards; draws are in their range. */
  ghost predicate Proper(start: real, ticks: seq<Tick>) {
    && (forall i :: 0 <= i < |ticks| ==> start <= ticks[i].now && 0.0 <= ticks[i].u < 1.0)
    && (forall i, j :: 0 <= i < j < |ticks| ==> ticks[i].now <= ticks[j].now)
  }

  /** Over any run the differential stays in range. */
  lemma {:induction false} RunStaysInRange(set_: Settings, s: State, ticks: seq<Tick>)
    requires InRange(set_, s) && set_.slewMsPerSec > 0.0 && Proper(s.last, ticks)
    ensures InRange(set_, After(set_, s, ticks))
    ensures After(set_, s, ticks).last == if ticks == [] then s.last else ticks[|ticks| - 1].now
  {
    hide Uniform, Travel;
    if ticks != [] {
      var t := ticks[|ticks| - 1];
      RunStaysInRange(set_, s, ticks[..|ticks| - 1]);
      StepKeepsRange(set_, After(set_, s, ticks[..|ticks| - 1]), t.now, t.u);
    }
  }

  /** Between any two moments of a run the differential moves by at most the slew
    * rate times the time between them. */
  lemma {:induction false} RunIsSlow(set_: Settings, s: State, ticks: seq<Tick>, i: nat)
    requires InRange(set_, s) && set_.slewMsPerSec > 0.0 && Proper(s.last, ticks) && i <= |ticks|
    ensures var early, late := After(set_, s, ticks[..i]), After(set_, s, ticks);
            && early.last <= late.last
            && Abs(late.current - early.current) <= Travel(set_.slewMsPerSec, late.last - early.last)
    decreases |ticks|
  {
    hide Step, InRange, After;
    if i == |ticks| {
      assert ticks[..i] == ticks;
      RunStaysInRange(set_, s, ticks);
      TravelsNone(set_.slewMsPerSec, After(set_, s, ticks));
    } else {
      var front, t := ticks[..|ticks| - 1], ticks[|ticks| - 1];
      assert front[..i] == ticks[..i];
      var a, b, c := After(set_, s, ticks[..i]), After(set_, s, front), After(set_, s, ticks);
      AfterOneMore(set_, s, ticks);
      RunIsSlow(set_, s, front, i);
      RunStaysInRange(set_, s, front);
      assert b.last <= t.now;
      StepIsSlow(set_, b, t.now, t.u);
      StepSetsClock(set_, b, t.now, t.u);
      hide *;
      AddSlews(set_.slewMsPerSec, a.current, b.current, c.current, a.last, b.last, c.last);
    }
  }

  lemma {:induction false} AfterOneMore(set_: Settings, s: State, ticks: seq<Tick>)
    requires ticks != []
    ensures var front, t := ticks[..|ticks| - 1], ticks[|ticks| - 1];
            After(set_, s, ticks) == Step(set_, After(set_, s, front), t.now, t.u)
    ensures Proper(s.last, ticks) ==>
              Proper(s.last, ticks[..|ticks| - 1]) && After(set_, s, ticks[..|ticks| - 1]).last <= ticks[|ticks| - 1].now
              && 0.0 <= ticks[|ticks| - 1].u < 1.0
  {}

  lemma TravelsNone(slew: real, s: State)
    ensures Abs(s.current - s.current) <= Travel(slew, s.last - s.last)
  {}

  lemma StepSetsClock(set_: Settings, s: State, now: real, u: real)
    ensures Step(set_, s, now, u).last == now
  {}

  lemma AddSlews(slew: real, x: real, y: real, z: real, p: real, q: real, r: real)
    requires Abs(y - x) <= Travel(slew, q - p) && Abs(z - y) <= Travel(slew, r - q)
    ensures Abs(z - x) <= Travel(slew, r - p)
  {
    TravelAdds(slew, q - p, r - q);
    hide Travel;
    assert (q - p) + (r - q) == r - p;
  }

  // ---------------------------------------------------------------------------
  // Progress
  // ---------------------------------------------------------------------------

  /** The time of the last reading of a run. */
  function LastOf(start: real, ticks: seq<Tick>): real {
    if ticks == [] then start else ticks[|ticks| - 1].now
  }

  lemma {:induction false} ProperFront(start: real, ticks: seq<Tick>)
    requires Proper(start, ticks) && ticks != []
    ensures Proper(start, ticks[..|ticks| - 1])
    ensures start <= LastOf(start, ticks[..|ticks| - 1]) <= ticks[|ticks| - 1].now && 0.0 <= ticks[|ticks| - 1].u < 1.0
  {}

  /** Where a differential is that has moved so far towards its target. */
  function Toward(s: State, way: real): real {
    if s.target < s.current then s.current - way else s.current + way
  }

  /** A run on the way, in terms of the way that time gives. */
  lemma {:induction false} OnTheWay(set_: Settings, s: State, ticks: seq<Tick>)
    requires set_.Enabled() && set_.slewMsPerSec > 0.0 && Proper(s.last, ticks)
    requires Travel(set_.slewMsPerSec, LastOf(s.last, ticks) - s.last) < Abs(s.target - s.current)
    ensures After(set_, s, ticks) == Underway(set_, s, LastOf(s.last, ticks))
  {
    hide Uniform, Proper, Travel, Settings.Enabled, Step, Abs, Toward;
    if ticks == [] {
      Departs(set_, s);
    } else {
      var front, t := ticks[..|ticks| - 1], ticks[|ticks| - 1];
      ProperFront(s.last, ticks);
      var from := LastOf(s.last, front);
      WayAdds(set_.slewMsPerSec, s.last, from, t.now);
      OnTheWay(set_, s, front);
      StepsToward(set_, s, from, t);
    }
  }

  function Underway(set_: Settings, s: State, at: real): State {
    s.(current := Toward(s, Travel(set_.slewMsPerSec, at - s.last)), last := at)
  }

  lemma Departs(set_: Settings, s: State)
    ensures Underway(set_, s, s.last) == s
  {
    assert s.last - s.last == 0.0;
  }

  lemma WayAdds(slew: real, a: real, b: real, c: real)
    requires slew > 0.0 && a <= b <= c
    ensures Travel(slew, c - a) == Travel(slew, b - a) + Travel(slew, c - b)
    ensures 0.0 <= Travel(slew, b - a) <= Travel(slew, c - a) && (b == c ==> Travel(slew, c - b) == 0.0)
  {
    TravelSign(slew, b - a);
    TravelSign(slew, c - b);
    TravelAdds(slew, b - a, c - b);
    assert (b - a) + (c - b) == c - a;
    if b == c { assert c - b == 0.0; }
  }

  /** One reading on the way. */
  lemma StepsToward(set_: Settings, s: State, from: real, t: Tick)
    requires set_.Enabled() && set_.slewMsPerSec > 0.0 && s.last <= from <= t.now
    requires Travel(set_.slewMsPerSec, from - s.last) < Abs(s.target - s.current)
    ensures Step(set_, Underway(set_, s, from), t.now, t.u)
            == if Travel(set_.slewMsPerSec, t.now - s.last) < Abs(s.target - s.current) then Underway(set_, s, t.now)
               else s.(current := s.target, last := t.now, dwellUntil := t.now + Uniform(0.0, set_.dwellMaxSec, t.u))
  {
    hide Settings.Enabled, Uniform, Travel;
    WayAdds(set_.slewMsPerSec, s.last, from, t.now);
  }

  /** Until it has had the time to get there the differential moves towards its target, by
    * exactly the slew rate times the time passed, and the target stands. */
  lemma {:induction false} Slews(set_: Settings, s: State, ticks: seq<Tick>)
    requires set_.Enabled() && set_.slewMsPerSec > 0.0 && Proper(s.last, ticks)
    requires set_.slewMsPerSec * (LastOf(s.last, ticks) - s.last) < Abs(s.target - s.current)
    ensures var at := LastOf(s.last, ticks);
            var way := set_.slewMsPerSec * (at - s.last);
            After(set_, s, ticks)
            == s.(current := if s.target < s.current then s.current - way else s.current + way, last := at)
  {
    hide After, Proper, Settings.Enabled;
    OnTheWay(set_, s, ticks);
  }

  /** It is there at the first reading by which it has had the time, not before and not past it,
    * and stays for a drawn part of the longest dwell from then on. */
  lemma {:induction false} Arrives(set_: Settings, s: State, ticks: seq<Tick>)
    requires set_.Enabled() && set_.slewMsPerSec > 0.0 && Proper(s.last, ticks) && ticks != []
    requires var front := ticks[..|ticks| - 1];
             set_.slewMsPerSec * (LastOf(s.last, front) - s.last) < Abs(s.target - s.current)
             <= set_.slewMsPerSec * (LastOf(s.last, ticks) - s.last)
    ensures var t := ticks[|ticks| - 1];
            After(set_, s, ticks)
            == s.(current := s.target, last := t.now, dwellUntil := t.now + set_.dwellMaxSec * t.u)
  {
    hide Proper, Settings.Enabled, Step, Underway;
    var front, t := ticks[..|ticks| - 1], ticks[|ticks| - 1];
    ProperFront(s.last, ticks);
    OnTheWay(set_, s, front);
    StepsToward(set_, s, LastOf(s.last, front), t);
  }

  /** At its target the differential stays, and the target too, at a fixed skew for good and in a
    * window through every reading before the dwell is over. */
  lemma {:induction false} Dwells(set_: Settings, s: State, ticks: seq<Tick>)
    requires set_.Enabled() && Proper(s.last, ticks) && s.current == s.target
    requires set_.window ==> LastOf(s.last, ticks) <= s.last || LastOf(s.last, ticks) < s.dwellUntil
    ensures After(set_, s, ticks) == s.(last := LastOf(s.last, ticks))
  {
    hide Uniform, Proper, Travel, Settings.Enabled;
    if ticks != [] {
      ProperFront(s.last, ticks);
      Dwells(set_, s, ticks[..|ticks| - 1]);
    }
  }

  /** The first reading after that, if it is later than the one before, draws a new target from
    * the window and moves nothing yet. */
  lemma {:induction false} DrawsAgain(set_: Settings, s: State, ticks: seq<Tick>)
    requires set_.window && Proper(s.last, ticks) && ticks != [] && s.current == s.target
    requires var before, t := LastOf(s.last, ticks[..|ticks| - 1]), ticks[|ticks| - 1];
             (before <= s.last || before < s.dwellUntil) && before < t.now && s.dwellUntil <= t.now
    ensures var t := ticks[|ticks| - 1];
            After(set_, s, ticks)
            == s.(target := set_.LoMs() + (set_.HiMs() - set_.LoMs()) * t.u, last := t.now)
  {
    hide Proper, Travel;
    ProperFront(s.last, ticks);
    Dwells(set_, s, ticks[..|ticks| - 1]);
  }

  /** A window of 0 to 10 ms at 10 ms a second: half a second on, the differential is half way. */
  lemma HalfWay()
    ensures var set_ := Settings(0.0, true, 0.0, 10.0, 10.0, 2.0);
            After(set_, State(0.0, 10.0, 0.0, 0.0), [Tick(0.5, 0.0)]) == State(5.0, 10.0, 0.5, 0.0)
  {
    var set_, ticks := Settings(0.0, true, 0.0, 10.0, 10.0, 2.0), [Tick(0.5, 0.0)];
    assert ticks[..0] == [];
    Slews(set_, State(0.0, 10.0, 0.0, 0.0), ticks);
  }

  /** At most one leg is ever held, and never longer than the ring is sized for. */
  lemma OneLegIsHeld(set_: Settings, s: State)
    requires InRange(set_, s) && set_.Accepted()
    ensures DelayA(s) == 0.0 || DelayB(s) == 0.0
    ensures DelayB(s) - DelayA(s) == s.current / 1000.0
    ensures 0.0 <= DelayA(s) <= set_.MaxAbsMs() / 1000.0 && 0.0 <= DelayB(s) <= set_.MaxAbsMs() / 1000.0
  {}

  /** The release frontier of either leg never retreats: a batch once due on a leg
    * stays due on it, whichever way the differential moves. */
  lemma {:induction false} DueStaysDue(set_: Settings, s: State, ticks: seq<Tick>, i: nat, built: real)
    requires InRange(set_, s) && set_.Accepted() && Proper(s.last, ticks) && i <= |ticks|
    ensures var early, late := After(set_, s, ticks[..i]), After(set_, s, ticks);
            && (early.last >= built + DelayA(early) ==> late.last >= built + DelayA(late))
            && (early.last >= built + DelayB(early) ==> late.last >= built + DelayB(late))
  {
    hide After, InRange;
    RunIsSlow(set_, s, ticks, i);
    var early, late := After(set_, s, ticks[..i]), After(set_, s, ticks);
    TravelBound(set_.slewMsPerSec, late.last - early.last);
    hide Travel;
    DelayFollows(early, late);
  }

  // Either delay changes by no more than the differential does.
  lemma DelayFollows(a: State, b: State)
    requires Abs(b.current - a.current) <= 1000.0 * (b.last - a.last)
    ensures DelayA(b) - DelayA(a) <= b.last - a.last && DelayB(b) - DelayB(a) <= b.last - a.last
  {}

  // ---------------------------------------------------------------------------
  // The class
  // ---------------------------------------------------------------------------

  class SkewController {
    var settings: Settings
    var current: real
    var target: real
    var last: real
    var dwellUntil: real

    ghost function Value(): State
      reads this
    {
      State(current, target, last, dwellUntil)
    }

    constructor ()
      ensures !settings.Enabled() && Value() == State(0.0, 0.0, 0.0, 0.0)
    {
      settings := Settings(0.0, false, 0.0, 0.0, 1.0, 2.0);
      current, target, last, dwellUntil := 0.0, 0.0, 0.0, 0.0;
    }

    function DelayASec(): (r: real)
      reads this
      ensures r == DelayA(Value())
    {
      if current < 0.0 then -current / 1000.0 else 0.0
    }

    function DelayBSec(): (r: real)
      reads this
      ensures r == DelayB(Value())
    {
      if current > 0.0 then current / 1000.0 else 0.0
    }

    /** Open at the target rather than ramping up from zero. */
    method Start(s: Settings, u: real, now: real)
      requires 0.0 <= u < 1.0
      modifies this
      ensures settings == s && InRange(s, Value()) && last == now
      ensures s.Enabled() ==> current == (if s.window then s.LoMs() + (s.HiMs() - s.LoMs()) * u else s.fixedMs)
      ensures s.Enabled() ==> dwellUntil == now
      ensures current == target
    {
      settings, last := s, now;
      if !s.Enabled() {
        current, target := 0.0, 0.0;
        return;
      }
      UniformInRange(s.LoMs(), s.HiMs(), u);
      target := if s.window then Uniform(s.LoMs(), s.HiMs(), u) else s.fixedMs;
      current := target;
      dwellUntil := now;
    }

    method Advance(now: real, u: real)
      modifies this
      ensures settings == old(settings)
      ensures Value() == Step(settings, old(Value()), now, u)
    {
      var dt := now - last;
      last := now;
      if !settings.Enabled() || dt <= 0.0 { return; }
      if current != target {
        var step := Travel(settings.slewMsPerSec, dt);
        if Abs(target - current) <= step {
          current := target;
          dwellUntil := now + Uniform(0.0, settings.dwellMaxSec, u);
        } else {
          current := current + if target - current < 0.0 then -step else step;
        }
        return;
      }
      if settings.window && now >= dwellUntil {
        target := Uniform(settings.LoMs(), settings.HiMs(), u);
      }
    }
  }
}
