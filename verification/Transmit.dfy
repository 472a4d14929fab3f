/** The transmit loop put together: how deep the ring is made, what a burst of the pacer does
  * to it, when it holds out against the skew controller, and a stream packetised into batches
  * and sent through it. */
module Transmit {
  import opened Wrappers
  import opened Impair
  import opened TxRing
  import opened Packetise
  import Pacer
  import Skew

  // ---------------------------------------------------------------------------
  // The depth of the ring
  // ---------------------------------------------------------------------------

  function Ceil(x: real): int { -((-x).Floor) }

  /** The slots the ring is given: the deepest hold in batches, and a margin. */
  function RingSlots(skew: Skew.Settings, pps: real, burstMax: nat): (r: int)
    requires pps > 0.0 && burstMax > 0
  {
    if skew.Enabled() then Ceil(skew.MaxAbsMs() / 1000.0 / (burstMax as real / pps)) + 128 else 1
  }

  /** More batches than there are slots, built faster than a leg is held, force a release. */
  method BurstOverruns<T(0)>(slots: nat, burstMax: nat, haveB: bool, f: Faults, blank: T,
                             batches: seq<seq<T>>, clock: seq<real>, delayA: seq<real>, delayB: seq<real>)
    returns (ring: TransmitRing<T>)
    requires 0 < slots < |batches| == |clock|
    requires forall k :: 0 <= k < |batches| ==> |batches[k]| <= burstMax
    requires Onward(clock) && Follows(clock, delayA) && Follows(clock, delayB)
    requires clock[slots - 1] - clock[0] < Longest(haveB, delayA[slots - 1], delayB[slots - 1])
    ensures ring.Valid() && ring.ring.Length == slots && ring.overruns > 0
    ensures |batches| == slots + 1 ==> ring.overruns == 1
  {
    ring := new TransmitRing(slots, burstMax, haveB, f, blank);
    ring.RunHeld(batches, clock, delayA, delayB);
    assert !SlowAt(clock, delayA, delayB, haveB, slots, slots);
  }

  /** A single slot and two batches at one reading: the second forces the first out on the
    * leg that holds it. */
  method OneSlotOverruns<T(0)>(f: Faults, one: seq<T>, two: seq<T>, blank: T, delay: real) returns (ring: TransmitRing<T>)
    requires delay > 0.0
    ensures ring.Valid() && ring.ring.Length == 1 && ring.overruns == 1
  {
    var batches, clock := [one, two], [0.0, 0.0];
    ring := BurstOverruns(1, |one| + |two|, true, f, blank, batches, clock, [0.0, 0.0], [delay, delay]);
  }

  /** 1080i50 on 46-datagram batches, one leg 10 ms behind the other. */
  const TEN_MS: Skew.Settings := Skew.Settings(10.0, false, 0.0, 0.0, 1.0, 1.0)
  const PPS: real := 134925.0
  const BURST: nat := 46

  /** The ring is then 158 slots deep, and what the pacer may catch up after a stall fills
    * 1466 batches. */
  lemma DepthAndCatchUp()
    ensures TEN_MS.Accepted() && RingSlots(TEN_MS, PPS, BURST) == 158 && Pacer.CatchUpLimit(PPS) / BURST == 1466
  {
    assert TEN_MS.MaxAbsMs() == 10.0;
    var batch := BURST as real / PPS;
    assert batch * PPS == 46.0;
    var x := 10.0 / 1000.0 / batch;
    assert x * batch == 0.01;
    assert x * 46.0 == 1349.25;
    assert 29.0 < x < 30.0;
    assert (-x).Floor == -30;
    assert (PPS * 0.5).Floor == 67462;
  }

  /** So a ring of the depth the engine gives it overruns in a catch-up burst: 159 full
    * batches granted at one reading of the clock, sent at a fixed skew of 10 ms. */
  method CatchUpOverruns<T(0)>(f: Faults, blank: T, batches: seq<seq<T>>, now: real, m: Pacer.Meter, due: int)
    returns (ring: TransmitRing<T>)
    requires due - m.issued >= Pacer.CatchUpLimit(PPS)
    requires |batches| == 159 && forall k :: 0 <= k < 159 ==> |batches[k]| == BURST
    ensures Pacer.After(Pacer.CatchUpLimit(PPS), m, Pacer.Repeated(Pacer.Poll(due, BURST), 159)).granted
            == m.granted + 159 * BURST
    ensures ring.Valid() && ring.ring.Length == RingSlots(TEN_MS, PPS, BURST) && ring.overruns == 1
  {
    hide RingSlots, Pacer.CatchUpLimit;
    DepthAndCatchUp();
    Pacer.CatchUpBurst(Pacer.CatchUpLimit(PPS), m, due, BURST, 159);
    var clock := seq(159, _ => now);
    ring := BurstOverruns(158, BURST, true, f, blank, batches, clock, seq(159, _ => 0.0), seq(159, _ => 0.01));
  }

  // ---------------------------------------------------------------------------
  // The ring under the controller
  // ---------------------------------------------------------------------------

  function Readings(ticks: seq<Skew.Tick>): (r: seq<real>)
    ensures |r| == |ticks|
  {
    seq(|ticks|, i requires 0 <= i < |ticks| => ticks[i].now)
  }

  /** What the controller holds a leg for at each reading of a run. */
  function DelaysA(settings: Skew.Settings, s: Skew.State, ticks: seq<Skew.Tick>): (r: seq<real>)
    ensures |r| == |ticks|
  {
    seq(|ticks|, i requires 0 <= i < |ticks| => Skew.DelayA(Skew.After(settings, s, ticks[..i + 1])))
  }

  function DelaysB(settings: Skew.Settings, s: Skew.State, ticks: seq<Skew.Tick>): (r: seq<real>)
    ensures |r| == |ticks|
  {
    seq(|ticks|, i requires 0 <= i < |ticks| => Skew.DelayB(Skew.After(settings, s, ticks[..i + 1])))
  }

  /** The controller, advanced at every reading. */
  method Controlled(c: Skew.SkewController, ticks: seq<Skew.Tick>) returns (delayA: seq<real>, delayB: seq<real>)
    modifies c
    ensures c.settings == old(c.settings)
    ensures delayA == DelaysA(c.settings, old(c.Value()), ticks) && delayB == DelaysB(c.settings, old(c.Value()), ticks)
  {
    hide Skew.Step;
    ghost var start := c.Value();
    delayA, delayB := [], [];
    for i := 0 to |ticks|
      invariant c.settings == old(c.settings) && c.Value() == Skew.After(c.settings, start, ticks[..i])
      invariant delayA == DelaysA(c.settings, start, ticks)[..i] && delayB == DelaysB(c.settings, start, ticks)[..i]
    {
      assert ticks[..i + 1][..i] == ticks[..i];
      c.Advance(ticks[i].now, ticks[i].u);
      delayA, delayB := delayA + [c.DelayASec()], delayB + [c.DelayBSec()];
    }
  }

  /** The delays of a run grow no faster than the clock, and neither leg is ever held for longer
    * than the largest skew configured. */
  lemma {:induction false} DelaysFollow(settings: Skew.Settings, s: Skew.State, ticks: seq<Skew.Tick>)
    requires Skew.InRange(settings, s) && settings.Accepted() && Skew.Proper(s.last, ticks)
    ensures Onward(Readings(ticks))
    ensures Follows(Readings(ticks), DelaysA(settings, s, ticks)) && Follows(Readings(ticks), DelaysB(settings, s, ticks))
    ensures forall i :: 0 <= i < |ticks| ==> HeldAfter(settings, s, ticks, i)
  {
    hide Skew.After, Skew.InRange, Skew.Travel, Skew.DelayA, Skew.DelayB, HeldWithin;
    var at, delayA, delayB := Readings(ticks), DelaysA(settings, s, ticks), DelaysB(settings, s, ticks);
    forall i, j | 0 <= i <= j < |ticks|
      ensures delayA[j] - delayA[i] <= at[j] - at[i] && delayB[j] - delayB[i] <= at[j] - at[i]
    {
      assert ticks[..j + 1][..i + 1] == ticks[..i + 1];
      Skew.RunIsSlow(settings, s, ticks[..j + 1], i + 1);
      Skew.RunStaysInRange(settings, s, ticks[..i + 1]);
      Skew.RunStaysInRange(settings, s, ticks[..j + 1]);
      var early, late := Skew.After(settings, s, ticks[..i + 1]), Skew.After(settings, s, ticks[..j + 1]);
      Skew.TravelBound(settings.slewMsPerSec, late.last - early.last);
      Skew.DelayFollows(early, late);
    }
    forall i | 0 <= i < |ticks| ensures HeldAfter(settings, s, ticks, i) {
      Skew.RunStaysInRange(settings, s, ticks[..i + 1]);
      HeldInRange(settings, Skew.After(settings, s, ticks[..i + 1]));
    }
  }

  /** Neither delay is longer than the largest configured, and at a fixed skew one of them is it. */
  predicate HeldWithin(settings: Skew.Settings, s: Skew.State) {
    && Longest(true, Skew.DelayA(s), Skew.DelayB(s)) <= settings.MaxAbsMs() / 1000.0
    && Longest(false, Skew.DelayA(s), Skew.DelayB(s)) <= settings.MaxAbsMs() / 1000.0
    && (!settings.window ==> Longest(true, Skew.DelayA(s), Skew.DelayB(s)) == settings.MaxAbsMs() / 1000.0)
  }

  predicate HeldAfter(settings: Skew.Settings, s: Skew.State, ticks: seq<Skew.Tick>, i: nat)
    requires i < |ticks|
  {
    HeldWithin(settings, Skew.After(settings, s, ticks[..i + 1]))
  }

  lemma HeldInRange(settings: Skew.Settings, s: Skew.State)
    requires Skew.InRange(settings, s) && settings.Accepted()
    ensures HeldWithin(settings, s)
  {}

  /** The `slots` batches before batch `n` took at least `hold` to build. */
  predicate Takes(ticks: seq<Skew.Tick>, slots: nat, n: nat, hold: real)
    requires 0 < slots <= n < |ticks|
  {
    ticks[n - 1].now - ticks[n - slots].now >= hold
  }

  /** Any as many batches as there are slots take at least `hold` to build. */
  ghost predicate Paced(ticks: seq<Skew.Tick>, slots: nat, hold: real)
    requires slots > 0
  {
    forall n :: slots <= n < |ticks| ==> Takes(ticks, slots, n, hold)
  }

  /** A whole run under the controller, whatever it draws.  No release is forced exactly if the
    * ring outlasts the delay of every moment; so none is if it outlasts the largest skew
    * configured, and at a fixed skew on two legs only then. */
  method RunControlled<T(0)>(slots: nat, burstMax: nat, haveB: bool, f: Faults, blank: T, settings: Skew.Settings,
                             u: real, batches: seq<seq<T>>, ticks: seq<Skew.Tick>)
    returns (ring: TransmitRing<T>, ghost start: Skew.State)
    requires slots > 0 && settings.Accepted() && 0.0 <= u < 1.0 && Skew.Proper(0.0, ticks) && |ticks| == |batches|
    requires forall k :: 0 <= k < |batches| ==> |batches[k]| <= burstMax
    ensures ring.Valid() && ring.ring.Length == slots && ring.built == batches
    ensures Skew.InRange(settings, start) && start.last == 0.0
    ensures ring.overruns == 0 <==>
            forall n :: slots <= n < |batches| ==>
              SlowAt(Readings(ticks), DelaysA(settings, start, ticks), DelaysB(settings, start, ticks), haveB, slots, n)
    ensures Paced(ticks, slots, settings.MaxAbsMs() / 1000.0) ==> ring.overruns == 0
    ensures haveB && !settings.window && ring.overruns == 0 ==> Paced(ticks, slots, settings.MaxAbsMs() / 1000.0)
  {
    var c := new Skew.SkewController();
    c.Start(settings, u, 0.0);
    start := c.Value();
    DelaysFollow(settings, start, ticks);
    var delayA, delayB := Controlled(c, ticks);
    ring := new TransmitRing(slots, burstMax, haveB, f, blank);
    ring.RunHeld(batches, Readings(ticks), delayA, delayB);
    PacedIsSlow(settings, start, ticks, haveB, slots);
  }

  lemma {:induction false} PacedIsSlow(settings: Skew.Settings, s: Skew.State, ticks: seq<Skew.Tick>, haveB: bool, slots: nat)
    requires slots > 0 && forall i :: 0 <= i < |ticks| ==> HeldAfter(settings, s, ticks, i)
    ensures var slow := forall n :: slots <= n < |ticks| ==>
                          SlowAt(Readings(ticks), DelaysA(settings, s, ticks), DelaysB(settings, s, ticks), haveB, slots, n);
            && (Paced(ticks, slots, settings.MaxAbsMs() / 1000.0) ==> slow)
            && (haveB && !settings.window && slow ==> Paced(ticks, slots, settings.MaxAbsMs() / 1000.0))
  {
    hide Skew.After, Skew.DelayA, Skew.DelayB, Longest, Skew.Settings.MaxAbsMs;
    var at, delayA, delayB := Readings(ticks), DelaysA(settings, s, ticks), DelaysB(settings, s, ticks);
    var hold := settings.MaxAbsMs() / 1000.0;
    forall n | slots <= n < |ticks|
      ensures Takes(ticks, slots, n, hold) ==> SlowAt(at, delayA, delayB, haveB, slots, n)
      ensures haveB && !settings.window && SlowAt(at, delayA, delayB, haveB, slots, n) ==> Takes(ticks, slots, n, hold)
    {
      assert HeldAfter(settings, s, ticks, n - 1);
    }
  }

  /** What so many batches take at the rate. */
  function TimeOf(batches: int, batchSeconds: real): real { (batches as real) * batchSeconds }

  /** No batch comes more than `slack` batches ahead of the rate. */
  ghost predicate NeverAhead(ticks: seq<Skew.Tick>, slack: nat, batchSeconds: real) {
    forall i, j :: 0 <= i <= j < |ticks| ==> ticks[j].now - ticks[i].now >= TimeOf(j - i - slack, batchSeconds)
  }

  lemma {:induction false} CeilCovers(hold: real, batch: real)
    requires batch > 0.0 && hold >= 0.0
    ensures Ceil(hold / batch) >= 0 && TimeOf(Ceil(hold / batch), batch) >= hold
    ensures TimeOf(-127, batch) <= 0.0
  {
    var x := hold / batch;
    assert x * batch == hold;
    var c := Ceil(x) as real;
    assert (c - x) * batch >= 0.0;
  }

  /** The margin of 128 slots: at the depth the engine gives it the ring outlasts the largest
    * skew so long as the batches are never more than 127 ahead of the rate. */
  lemma {:induction false} DepthSuffices(settings: Skew.Settings, pps: real, burstMax: nat, ticks: seq<Skew.Tick>)
    requires pps > 0.0 && burstMax > 0 && settings.Accepted()
    requires NeverAhead(ticks, 127, burstMax as real / pps)
    ensures RingSlots(settings, pps, burstMax) > 0
    ensures Paced(ticks, RingSlots(settings, pps, burstMax), settings.MaxAbsMs() / 1000.0)
  {
    var hold, batch := settings.MaxAbsMs() / 1000.0, burstMax as real / pps;
    CeilCovers(hold, batch);
    hide TimeOf, Ceil;
    var slots := RingSlots(settings, pps, burstMax);
    forall n | slots <= n < |ticks| ensures Takes(ticks, slots, n, hold) {
      if settings.Enabled() { assert ticks[n - 1].now - ticks[n - slots].now >= TimeOf(Ceil(hold / batch), batch); }
    }
  }

  /** So the engine forces no release, however the skew moves, while that is so. */
  method RunSized<T(0)>(pps: real, burstMax: nat, haveB: bool, f: Faults, blank: T, settings: Skew.Settings,
                        u: real, batches: seq<seq<T>>, ticks: seq<Skew.Tick>)
    returns (ring: TransmitRing<T>)
    requires pps > 0.0 && burstMax > 0 && settings.Accepted()
    requires 0.0 <= u < 1.0 && Skew.Proper(0.0, ticks) && |ticks| == |batches|
    requires forall k :: 0 <= k < |batches| ==> |batches[k]| <= burstMax
    ensures ring.Valid() && ring.ring.Length == RingSlots(settings, pps, burstMax) && ring.built == batches
    ensures NeverAhead(ticks, 127, burstMax as real / pps) ==> ring.overruns == 0
  {
    hide RingSlots, NeverAhead, Paced, Skew.Proper, Skew.Settings.Accepted;
    DepthIsSome(settings, pps, burstMax);
    ghost var start;
    ring, start := RunControlled(RingSlots(settings, pps, burstMax), burstMax, haveB, f, blank, settings, u, batches, ticks);
    if NeverAhead(ticks, 127, burstMax as real / pps) { DepthSuffices(settings, pps, burstMax, ticks); }
  }

  lemma DepthIsSome(settings: Skew.Settings, pps: real, burstMax: nat)
    requires pps > 0.0 && burstMax > 0 && settings.Accepted()
    ensures RingSlots(settings, pps, burstMax) > 0
  {
    CeilCovers(settings.MaxAbsMs() / 1000.0, burstMax as real / pps);
    hide Ceil;
  }

  // ---------------------------------------------------------------------------
  // A stream through the ring
  // ---------------------------------------------------------------------------

  /** A stream packetised as the credit comes and sent without skew or impairments: both
    * legs carry the stream, datagram for datagram, whatever its batches were. */
  method SendStream(p: Plan, frames: seq<seq<Byte>>, credits: seq<nat>, clock: seq<real>,
                    burstMax: nat, haveB: bool, f: Faults)
    returns (ring: TransmitRing<seq<Byte>>)
    requires p.Ok() && Sized(p, frames) && Sum(credits) == |frames| * p.PerFrame()
    requires |clock| == |credits| && forall k :: 0 <= k < |credits| ==> credits[k] <= burstMax
    requires Onward(clock) && !f.Any()
    ensures ring.Valid() && ring.overruns == 0
    ensures TxRing.Wire(ring.logA) == Packetise.Wire(p, frames, |frames|, 0)
    ensures haveB ==> TxRing.Wire(ring.logB) == Packetise.Wire(p, frames, |frames|, 0)
  {
    hide Packetise.Wire, TxRing.Wire, Flat, Sum;
    var batches := PacketiseAll(p, frames, credits);
    ring := new TransmitRing(1, burstMax, haveB, f, []);
    ring.RunUnskewed(batches, clock);
  }
}
