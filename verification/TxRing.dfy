/** The transmit ring: each batch is built once into its slot and sent from there by
  * two legs, each with its own cursor, so that either leg can be held behind the other.
  */
module TxRing {
  import opened Wrappers
  import opened Impair
  import Merge

  /** A leg's cursor, what is left of a glitch on it, and what it has dropped. */
  datatype Leg = Leg(cur: nat, burstLeft: nat, dropped: nat)

  /** What one leg did with one batch.  `forced` batches were sent to free their slot,
    * the others once `delay` had passed at the reading `at`. */
  datatype Delivery<T> = Delivery(fates: seq<Fate>, swap: Swap, out: seq<T>, before: nat,
                                  forced: bool, at: real, delay: real)
  {
    function LeftAfter(): nat { LeftBefore(fates, before, |fates|) }
  }

  // ---------------------------------------------------------------------------
  // One leg's log against the batches built
  // ---------------------------------------------------------------------------

  ghost predicate Delivered<T>(f: Faults, wantLoss: bool, row: seq<T>, d: Delivery<T>) {
    && |d.fates| == |row| && Fated(f, wantLoss, d.before, d.fates) && CanSwap(f, Expand(d.fates), d.swap)
    && InRow(Swapped(Expand(d.fates), d.swap), |row|)
    && d.out == Select(row, Swapped(Expand(d.fates), d.swap))
  }

  function LogLeft<T>(log: seq<Delivery<T>>): nat {
    if log == [] then 0 else log[|log| - 1].LeftAfter()
  }

  function LogDropped<T>(log: seq<Delivery<T>>): nat {
    if log == [] then 0 else LogDropped(log[..|log| - 1]) + Dropped(log[|log| - 1].fates)
  }

  function LogDuplicated<T>(log: seq<Delivery<T>>): nat {
    if log == [] then 0 else LogDuplicated(log[..|log| - 1]) + Duplicated(log[|log| - 1].fates)
  }

  function LogForced<T>(log: seq<Delivery<T>>): nat {
    if log == [] then 0 else LogForced(log[..|log| - 1]) + if log[|log| - 1].forced then 1 else 0
  }

  /** Batch `k` of the log is batch `k` built, impaired as the settings allow, and no
    * earlier than its delay unless it was forced. */
  ghost predicate LogEntry<T>(f: Faults, wantLoss: bool, built: seq<seq<T>>, times: seq<real>,
                           log: seq<Delivery<T>>, k: nat)
    requires k < |log| <= |built| == |times|
  {
    && Delivered(f, wantLoss, built[k], log[k])
    && log[k].before == LogLeft(log[..k])
    && (log[k].forced || times[k] + log[k].delay <= log[k].at)
  }

  ghost predicate Entries<T>(f: Faults, wantLoss: bool, built: seq<seq<T>>, times: seq<real>,
                             log: seq<Delivery<T>>)
  {
    |log| <= |built| == |times| && forall k :: 0 <= k < |log| ==> LogEntry(f, wantLoss, built, times, log, k)
  }

  ghost predicate LegOk<T>(f: Faults, wantLoss: bool, built: seq<seq<T>>, times: seq<real>,
                           leg: Leg, log: seq<Delivery<T>>)
  {
    && |log| == leg.cur && leg.burstLeft == LogLeft(log) && leg.dropped == LogDropped(log)
    && Entries(f, wantLoss, built, times, log)
  }

  lemma {:induction false} LogMore<T>(f: Faults, wantLoss: bool, built: seq<seq<T>>, times: seq<real>,
                   log: seq<Delivery<T>>, d: Delivery<T>)
    requires Entries(f, wantLoss, built, times, log) && |log| < |built|
    requires Delivered(f, wantLoss, built[|log|], d) && d.before == LogLeft(log)
    requires d.forced || times[|log|] + d.delay <= d.at
    ensures Entries(f, wantLoss, built, times, log + [d])
    ensures LogLeft(log + [d]) == d.LeftAfter() && LogDropped(log + [d]) == LogDropped(log) + Dropped(d.fates)
    ensures LogDuplicated(log + [d]) == LogDuplicated(log) + Duplicated(d.fates)
    ensures LogForced(log + [d]) == LogForced(log) + if d.forced then 1 else 0
  {
    hide Delivered, Delivery<T>.LeftAfter;
    var all := log + [d];
    assert all[..|log|] == log;
    forall k | 0 <= k < |all|
      ensures LogEntry(f, wantLoss, built, times, all, k)
    {
      assert all[..k] == log[..k];
      if k < |log| { assert LogEntry(f, wantLoss, built, times, log, k); }
    }
  }

  lemma {:induction false} MoreBuilt<T>(f: Faults, wantLoss: bool, built: seq<seq<T>>, times: seq<real>,
                     log: seq<Delivery<T>>, batch: seq<T>, now: real)
    requires Entries(f, wantLoss, built, times, log)
    ensures Entries(f, wantLoss, built + [batch], times + [now], log)
  {
    hide Delivered;
    forall k | 0 <= k < |log|
      ensures LogEntry(f, wantLoss, built + [batch], times + [now], log, k)
    {
      assert LogEntry(f, wantLoss, built, times, log, k);
    }
  }

  lemma {:induction false} LogFront<T>(f: Faults, wantLoss: bool, built: seq<seq<T>>, times: seq<real>, log: seq<Delivery<T>>)
    requires Entries(f, wantLoss, built, times, log) && log != []
    ensures Entries(f, wantLoss, built, times, log[..|log| - 1])
    ensures LogEntry(f, wantLoss, built, times, log, |log| - 1)
    ensures built[..|log|][..|log| - 1] == built[..|log| - 1]
  {
    hide Delivered;
    var front := log[..|log| - 1];
    forall k | 0 <= k < |front|
      ensures LogEntry(f, wantLoss, built, times, front, k)
    {
      assert front[..k] == log[..k];
      assert LogEntry(f, wantLoss, built, times, log, k);
    }
  }

  // ---------------------------------------------------------------------------
  // What a leg has put on the wire
  // ---------------------------------------------------------------------------

  function Wire<T>(log: seq<Delivery<T>>): seq<T> {
    if log == [] then [] else Wire(log[..|log| - 1]) + log[|log| - 1].out
  }

  function LogFates<T>(log: seq<Delivery<T>>): seq<Fate> {
    if log == [] then [] else LogFates(log[..|log| - 1]) + log[|log| - 1].fates
  }

  /** With the impairments off, forced releases or not, a leg has sent exactly the
    * batches up to its cursor, byte for byte and each once. */
  lemma {:induction false} CleanLegIsPrefix<T>(f: Faults, built: seq<seq<T>>, times: seq<real>,
                                               log: seq<Delivery<T>>)
    requires Entries(f, false, built, times, log) && !f.Any()
    ensures Wire(log) == Flat(built[..|log|]) && LogDropped(log) == 0 && LogLeft(log) == 0
  {
    if log != [] {
      var n := |log| - 1;
      var d := log[n];
      LogFront(f, false, built, times, log);
      CleanLegIsPrefix(f, built, times, log[..n]);
      hide Entries, Fated, Expand, Swapped, Select;
      Untouched(built[n], f, false, d.fates, d.swap);
      NoneDropped(f, d.fates);
    }
  }

  lemma {:induction false} NoneDropped(f: Faults, fates: seq<Fate>)
    requires Fated(f, false, 0, fates) && !f.Any()
    ensures Dropped(fates) == 0
  {
    AllOnce(f, fates, |fates|);
    OnceDropsNone(fates);
  }

  /** Conservation on a leg, whatever the impairments: what went out and what was
    * dropped make up what was built and what was duplicated. */
  lemma {:induction false} LegLedger<T>(f: Faults, wantLoss: bool, built: seq<seq<T>>, times: seq<real>,
                                        log: seq<Delivery<T>>)
    requires Entries(f, wantLoss, built, times, log)
    ensures |Wire(log)| + LogDropped(log) == |Flat(built[..|log|])| + LogDuplicated(log)
  {
    if log != [] {
      var n := |log| - 1;
      LogFront(f, wantLoss, built, times, log);
      LegLedger(f, wantLoss, built, times, log[..n]);
      hide Entries, Expand, Dropped, Duplicated, Fated;
      Ledger(log[n].fates);
    }
  }

  /** A leg's fates over all its batches are those of one long batch, so a glitch
    * begun in one batch takes its full length out of the next. */
  lemma {:induction false} LegFates<T>(f: Faults, wantLoss: bool, built: seq<seq<T>>, times: seq<real>,
                                       log: seq<Delivery<T>>)
    requires Entries(f, wantLoss, built, times, log)
    ensures Fated(f, wantLoss, 0, LogFates(log))
    ensures LeftBefore(LogFates(log), 0, |LogFates(log)|) == LogLeft(log)
  {
    if log != [] {
      var n := |log| - 1;
      LogFront(f, wantLoss, built, times, log);
      LegFates(f, wantLoss, built, times, log[..n]);
      hide Entries, Fated;
      FatedJoins(f, wantLoss, 0, LogFates(log[..n]), log[n].fates);
    }
  }

  // ---------------------------------------------------------------------------
  // The slots
  // ---------------------------------------------------------------------------

  /** Every batch a leg has still to send is whole in its slot. */
  ghost predicate Held<T>(ring: seq<seq<T>>, count: seq<nat>, time: seq<real>,
                          built: seq<seq<T>>, times: seq<real>, oldest: nat)
  {
    && 0 < |ring| == |count| == |time| && |built| == |times|
    && oldest <= |built| <= oldest + |ring|
    && forall k :: oldest <= k < |built| ==> HeldAt(ring, count, time, built[k], times[k], Merge.Slot(k, |ring|))
  }

  ghost predicate HeldAt<T>(ring: seq<seq<T>>, count: seq<nat>, time: seq<real>, batch: seq<T>, at: real, i: nat)
    requires i < |ring| == |count| == |time|
  {
    count[i] <= |ring[i]| && ring[i][..count[i]] == batch && time[i] == at
  }

  // ---------------------------------------------------------------------------
  // The ring and its two legs
  // ---------------------------------------------------------------------------

  function Least(a: nat, b: nat): nat { if b < a then b else a }

  ghost predicate SlotsOk<T>(ring: seq<seq<T>>, count: seq<nat>, time: seq<real>, burstMax: nat,
                             built: seq<seq<T>>, times: seq<real>, oldest: nat)
  {
    (forall i :: 0 <= i < |ring| ==> |ring[i]| == burstMax) && Held(ring, count, time, built, times, oldest)
  }

  ghost predicate LegsOk<T>(f: Faults, haveB: bool, built: seq<seq<T>>, times: seq<real>,
                            a: Leg, logA: seq<Delivery<T>>, b: Leg, logB: seq<Delivery<T>>,
                            duplicated: nat, overruns: nat)
  {
    && LegOk(f, f.lossA, built, times, a, logA)
    && (if haveB then LegOk(f, f.lossB, built, times, b, logB) else logB == [] && b.cur == a.cur)
    && duplicated == LogDuplicated(logA) + LogDuplicated(logB)
    && (overruns == 0 <==> LogForced(logA) == LogForced(logB) == 0)
  }

  class TransmitRing<T(0)> {
    const ring: array<seq<T>>
    const count: array<nat>
    const time: array<real>
    const burstMax: nat
    const haveB: bool
    const f: Faults
    var wslot: nat
    var a: Leg
    var b: Leg
    var overruns: nat
    var duplicated: nat
    var reordered: nat
    ghost var built: seq<seq<T>>
    ghost var times: seq<real>
    ghost var logA: seq<Delivery<T>>
    ghost var logB: seq<Delivery<T>>

    ghost predicate Slots()
      reads this, ring, count, time
    {
      && wslot == |built| && ring.Length > 0
      && SlotsOk(ring[..], count[..], time[..], burstMax, built, times, Least(a.cur, b.cur))
    }

    ghost predicate Legs()
      reads this
    {
      LegsOk(f, haveB, built, times, a, logA, b, logB, duplicated, overruns)
    }

    ghost predicate Valid()
      reads this, ring, count, time
    {
      Slots() && Legs()
    }

    constructor (slots: nat, burstMax: nat, haveB: bool, f: Faults, blank: T)
      requires slots > 0
      ensures Valid() && built == [] && fresh(ring) && fresh(count) && fresh(time)
      ensures ring.Length == slots && this.burstMax == burstMax && this.haveB == haveB && this.f == f
    {
      this.burstMax, this.haveB, this.f := burstMax, haveB, f;
      ring := new seq<T>[slots](i => seq(burstMax, k => blank));
      count := new nat[slots](i => 0);
      time := new real[slots](i => 0.0);
      wslot, a, b := 0, Leg(0, 0, 0), Leg(0, 0, 0);
      overruns, duplicated, reordered := 0, 0, 0;
      built, times, logA, logB := [], [], [], [];
    }

    /** Send the batch at a leg's cursor: whole when `plain`, else through the impairments. */
    method Send(leg: Leg, wantLoss: bool, plain: bool, ghost log: seq<Delivery<T>>,
                ghost forced: bool, at: real, delay: real)
        returns (next: Leg, dups: nat, swaps: nat, ghost more: seq<Delivery<T>>)
      requires Slots() && LegOk(f, wantLoss, built, times, leg, log)
      requires Least(a.cur, b.cur) <= leg.cur < wslot && (plain ==> !f.Any() && !wantLoss)
      requires forced || times[leg.cur] + delay <= at
      ensures LegOk(f, wantLoss, built, times, next, more) && next.cur == leg.cur + 1
      ensures Extends(log, more, forced, at, delay)
      ensures LogDuplicated(more) == LogDuplicated(log) + dups
      ensures LogForced(more) == LogForced(log) + if forced then 1 else 0
    {
      var i := Merge.Slot(leg.cur, ring.Length);
      HeldSlot(ring[..], count[..], time[..], burstMax, built, times, Least(a.cur, b.cur), leg.cur);
      var row := ring[i][..count[i]];
      assert row == built[leg.cur];
      if plain { CleanLegIsPrefix(f, built, times, log); }
      LegCursor(f, wantLoss, built, times, leg, log);
      hide SlotsOk, LegOk, Entries, LogForced, LogDuplicated, LogLeft, Wire, Flat;
      hide Fated, Expand, Swapped, Select, InRow, CanSwap, Dropped, Duplicated, LeftBefore;
      var out, left, dropped;
      ghost var fates, s;
      out, left, dropped, dups, swaps, fates, s := Dispatch(row, f, wantLoss, plain, leg.burstLeft);
      ghost var d := Delivery(fates, s, out, leg.burstLeft, forced, at, delay);
      next, more := Leg(leg.cur + 1, left, leg.dropped + dropped), log + [d];
      LegSends(f, wantLoss, built, times, leg, log, d);
    }

    /** Send everything now due on one leg, stopping at the first batch that is not. */
    method Release(leg: Leg, wantLoss: bool, ghost log: seq<Delivery<T>>, now: real, delay: real)
        returns (next: Leg, dups: nat, swaps: nat, ghost more: seq<Delivery<T>>)
      requires Slots() && LegOk(f, wantLoss, built, times, leg, log)
      requires Least(a.cur, b.cur) <= leg.cur <= wslot && (!f.Any() ==> !wantLoss)
      ensures LegOk(f, wantLoss, built, times, next, more) && leg.cur <= next.cur <= wslot
      ensures forall k :: leg.cur <= k < next.cur ==> times[k] + delay <= now
      ensures next.cur < wslot ==> now < times[next.cur] + delay
      ensures |log| <= |more| && more[..|log|] == log
      ensures AllTimed(more, |log|, now, delay)
      ensures LogDuplicated(more) == LogDuplicated(log) + dups
      ensures LogForced(more) == LogForced(log)
    {
      next, dups, swaps, more := leg, 0, 0, log;
      while next.cur < wslot
        invariant LegOk(f, wantLoss, built, times, next, more) && leg.cur <= next.cur <= wslot
        invariant forall k :: leg.cur <= k < next.cur ==> times[k] + delay <= now
        invariant |log| <= |more| && more[..|log|] == log
        invariant AllTimed(more, |log|, now, delay)
        invariant LogDuplicated(more) == LogDuplicated(log) + dups && LogForced(more) == LogForced(log)
      {
        var i := Merge.Slot(next.cur, ring.Length);
        HeldSlot(ring[..], count[..], time[..], burstMax, built, times, Least(a.cur, b.cur), next.cur);
        if now < time[i] + delay { break; }
        hide *;
        ghost var was := more;
        var d, w;
        next, d, w, more := Send(next, wantLoss, !f.Any(), was, false, now, delay);
        ExtendsKeeps(log, was, more, now, delay);
        dups, swaps := dups + d, swaps + w;
      }
    }

    /** Send the oldest batch at once on a leg that still owes it. */
    method ForceLeg(leg: Leg, wantLoss: bool, ghost log: seq<Delivery<T>>)
        returns (next: Leg, dups: nat, swaps: nat, ghost more: seq<Delivery<T>>)
      requires Slots() && LegOk(f, wantLoss, built, times, leg, log)
      requires Least(a.cur, b.cur) <= leg.cur && Least(a.cur, b.cur) < wslot
      ensures LegOk(f, wantLoss, built, times, next, more) && leg.cur == |log|
      ensures LogDuplicated(more) == LogDuplicated(log) + dups
      ensures if leg.cur == Least(a.cur, b.cur)
              then next.cur == leg.cur + 1 && |more| == |log| + 1 && more[..|log|] == log
                   && LogForced(more) == LogForced(log) + 1
              else next == leg && more == log
      ensures AllForced(more, |log|)
    {
      LegCursor(f, wantLoss, built, times, leg, log);
      hide SlotsOk, LegOk, LogForced, LogDuplicated;
      next, dups, swaps, more := leg, 0, 0, log;
      if leg.cur == Least(a.cur, b.cur) {
        next, dups, swaps, more := Send(leg, wantLoss, false, log, true, 0.0, 0.0);
      }
    }

    /** Send the oldest batch at once on every leg that still owes it. */
    method ForceLegs()
        returns (nextA: Leg, nextB: Leg, dups: nat, swaps: nat,
                 ghost moreA: seq<Delivery<T>>, ghost moreB: seq<Delivery<T>>)
      requires Valid() && Least(a.cur, b.cur) < wslot
      ensures LegsOk(f, haveB, built, times, nextA, moreA, nextB, moreB, duplicated + dups, overruns + 1)
      ensures nextA.cur == a.cur + (if a.cur <= b.cur then 1 else 0)
      ensures nextB.cur == b.cur + (if b.cur <= a.cur then 1 else 0)
      ensures Least(nextA.cur, nextB.cur) == Least(a.cur, b.cur) + 1
      ensures a.cur <= |moreA| && moreA[..a.cur] == logA && AllForced(moreA, a.cur)
      ensures haveB ==> b.cur <= |moreB| && moreB[..b.cur] == logB && AllForced(moreB, b.cur)
    {
      hide SlotsOk, LegOk, LogForced, LogDuplicated, AllForced;
      var e, x := 0, 0;
      nextA, dups, swaps, moreA := ForceLeg(a, f.lossA, logA);
      nextB, moreB := b, logB;
      if haveB {
        nextB, e, x, moreB := ForceLeg(b, f.lossB, logB);
      } else {
        nextB := nextB.(cur := nextA.cur);
      }
      dups, swaps := dups + e, swaps + x;
    }

    /** Free the oldest slot when the ring is full: send it now on every leg still owing it. */
    method ForceOldest()
      requires Valid() && wslot == Least(a.cur, b.cur) + ring.Length
      modifies `a, `b, `overruns, `duplicated, `reordered, `logA, `logB
      ensures Valid() && Least(a.cur, b.cur) == old(Least(a.cur, b.cur)) + 1
      ensures overruns == old(overruns) + 1
      ensures a.cur == old(a.cur) + (if old(a.cur <= b.cur) then 1 else 0)
      ensures b.cur == old(b.cur) + (if old(b.cur <= a.cur) then 1 else 0)
      ensures old(a.cur) <= |logA| && logA[..old(a.cur)] == old(logA) && AllForced(logA, old(a.cur))
      ensures haveB ==> old(b.cur) <= |logB| && logB[..old(b.cur)] == old(logB) && AllForced(logB, old(b.cur))
    {
      hide SlotsOk, LegsOk, Least, AllForced;
      ghost var oldest := Least(a.cur, b.cur);
      var nextA, nextB, dups, swaps;
      ghost var moreA, moreB;
      HeldFewer(ring[..], count[..], time[..], burstMax, built, times, oldest, oldest + 1);
      nextA, nextB, dups, swaps, moreA, moreB := ForceLegs();
      a, b, logA, logB := nextA, nextB, moreA, moreB;
      duplicated, reordered, overruns := duplicated + dups, reordered + swaps, overruns + 1;
    }

    /** Build a batch into the next slot, datagram by datagram, and stamp it. */
    method Build(batch: seq<T>, now: real)
      requires Valid() && wslot < Least(a.cur, b.cur) + ring.Length && |batch| <= burstMax
      modifies ring, count, time, `wslot, `built, `times
      ensures Valid() && built == old(built) + [batch] && times == old(times) + [now]
    {
      BuildKeepsHeld(ring[..], count[..], time[..], burstMax, built, times, Least(a.cur, b.cur), batch, now);
      LegsSeeBuilt(f, haveB, built, times, a, logA, b, logB, duplicated, overruns, batch, now);
      SlotIsWide(ring[..], count[..], time[..], burstMax, built, times, Least(a.cur, b.cur));
      hide SlotsOk, LegsOk;
      var wi := Merge.Slot(wslot, ring.Length);
      ghost var slots := ring[..];
      var k := 0;
      while k < |batch|
        invariant k <= |batch|
        invariant ring[..] == slots[wi := Overwritten(slots[wi], batch[..k])]
        modifies ring
      {
        OverwrittenMore(slots[wi], batch, k);
        ring[wi] := ring[wi][k := batch[k]];
        k := k + 1;
      }
      assert batch[..k] == batch;
      count[wi] := k;
      time[wi] := now;
      built, times := built + [batch], times + [now];
      wslot := wslot + 1;
      assert count[..] == old(count[..])[wi := k];
      assert time[..] == old(time[..])[wi := now];
    }

    /** Send everything now due on both legs. */
    method ReleaseLegs(now: real, delayA: real, delayB: real)
        returns (nextA: Leg, nextB: Leg, dups: nat, swaps: nat,
                 ghost moreA: seq<Delivery<T>>, ghost moreB: seq<Delivery<T>>)
      requires Valid()
      ensures LegsOk(f, haveB, built, times, nextA, moreA, nextB, moreB, duplicated + dups, overruns)
      ensures Upto(nextA, times, a.cur, now, delayA)
      ensures if haveB then Upto(nextB, times, b.cur, now, delayB) else nextB.cur == nextA.cur
      ensures a.cur <= |moreA| && moreA[..a.cur] == logA && AllTimed(moreA, a.cur, now, delayA)
      ensures haveB ==> b.cur <= |moreB| && moreB[..b.cur] == logB && AllTimed(moreB, b.cur, now, delayB)
    {
      HeldFewer(ring[..], count[..], time[..], burstMax, built, times, Least(a.cur, b.cur), Least(a.cur, b.cur) + 1);
      LegCursor(f, f.lossA, built, times, a, logA);
      if haveB { LegCursor(f, f.lossB, built, times, b, logB); }
      hide SlotsOk, LegOk, LogForced, LogDuplicated, AllTimed;
      var e, x := 0, 0;
      nextA, dups, swaps, moreA := Release(a, f.lossA, logA, now, delayA);
      nextB, moreB := b, logB;
      if haveB {
        nextB, e, x, moreB := Release(b, f.lossB, logB, now, delayB);
      } else {
        nextB := nextB.(cur := nextA.cur);
      }
      dups, swaps := dups + e, swaps + x;
    }

    method ReleaseDue(now: real, delayA: real, delayB: real)
      requires Valid()
      modifies `a, `b, `duplicated, `reordered, `logA, `logB
      ensures Valid()
      ensures Upto(a, times, old(a.cur), now, delayA)
      ensures if haveB then Upto(b, times, old(b.cur), now, delayB) else b.cur == a.cur
      ensures old(a.cur) <= |logA| && logA[..old(a.cur)] == old(logA) && AllTimed(logA, old(a.cur), now, delayA)
      ensures haveB ==>
                old(b.cur) <= |logB| && logB[..old(b.cur)] == old(logB) && AllTimed(logB, old(b.cur), now, delayB)
    {
      hide SlotsOk, LegsOk, Upto, Least, AllTimed;
      ghost var oldest := Least(a.cur, b.cur);
      var nextA, nextB, dups, swaps;
      ghost var moreA, moreB;
      nextA, nextB, dups, swaps, moreA, moreB := ReleaseLegs(now, delayA, delayB);
      HeldFewer(ring[..], count[..], time[..], burstMax, built, times, oldest, Least(nextA.cur, nextB.cur));
      LegCursors(f, haveB, built, times, a, logA, b, logB, duplicated, overruns);
      LeastForward(times, now, a, nextA, delayA, b, nextB, delayB, haveB);
      a, b, logA, logB := nextA, nextB, moreA, moreB;
      duplicated, reordered := duplicated + dups, reordered + swaps;
    }

    /** One time round the transmit loop: free a slot if there is none, build a batch
      * into the next, and release what is due.
      *
      * Each leg has come from where it stood, past the oldest batch if that was forced out
      * on it, to the first batch not yet due, which it holds. */
    method Iterate(batch: seq<T>, now: real, delayA: real, delayB: real)
      requires Valid() && |batch| <= burstMax
      modifies this, ring, count, time
      ensures Valid() && built == old(built) + [batch] && times == old(times) + [now]
      ensures overruns == old(overruns) + (if old(Full()) then 1 else 0)
      ensures Upto(a, times, old(a.cur) + (if old(Full() && a.cur <= b.cur) then 1 else 0), now, delayA)
      ensures if haveB then Upto(b, times, old(b.cur) + (if old(Full() && b.cur <= a.cur) then 1 else 0), now, delayB)
              else b.cur == a.cur
      ensures old(a.cur) <= |logA| && logA[..old(a.cur)] == old(logA) && AllAccounted(logA, old(a.cur), now, delayA)
      ensures haveB ==>
                old(b.cur) <= |logB| && logB[..old(b.cur)] == old(logB) && AllAccounted(logB, old(b.cur), now, delayB)
    {
      hide SlotsOk, LegsOk, Least, AllForced, AllTimed, AllAccounted, Upto;
      MakeRoom();
      ghost var midA, midB := logA, logB;
      Build(batch, now);
      ReleaseDue(now, delayA, delayB);
      Accounted(midA, logA, old(a.cur), now, delayA);
      if haveB { Accounted(midB, logB, old(b.cur), now, delayB); }
    }

    /** Free the oldest slot if there is none. */
    method MakeRoom()
      requires Valid()
      modifies `a, `b, `overruns, `duplicated, `reordered, `logA, `logB
      ensures Valid() && wslot < Least(a.cur, b.cur) + ring.Length
      ensures overruns == old(overruns) + (if old(Full()) then 1 else 0)
      ensures a.cur == old(a.cur) + (if old(Full() && a.cur <= b.cur) then 1 else 0) == |logA|
      ensures b.cur == old(b.cur) + (if old(Full() && b.cur <= a.cur) then 1 else 0)
      ensures old(a.cur) <= |logA| && logA[..old(a.cur)] == old(logA) && AllForced(logA, old(a.cur))
      ensures haveB ==> old(b.cur) <= |logB| == b.cur
                        && logB[..old(b.cur)] == old(logB) && AllForced(logB, old(b.cur))
    {
      HeldFewer(ring[..], count[..], time[..], burstMax, built, times, Least(a.cur, b.cur), 0);
      LegCursors(f, haveB, built, times, a, logA, b, logB, duplicated, overruns);
      AllForcedNone(logA);
      AllForcedNone(logB);
      hide SlotsOk, LegsOk, Least, AllForced;
      if wslot - Least(a.cur, b.cur) >= ring.Length { ForceOldest(); }
      LegCursors(f, haveB, built, times, a, logA, b, logB, duplicated, overruns);
    }

    /** No slot is free. */
    predicate Full()
      reads this
    {
      wslot == Least(a.cur, b.cur) + ring.Length
    }

    /** A whole run, on a clock that does not run backwards and with delays that grow no
      * faster than it does: no release is forced exactly if, at every batch, the last as many
      * batches as there are slots took at least the longer delay of that moment to build. */
    method RunHeld(batches: seq<seq<T>>, clock: seq<real>, delayA: seq<real>, delayB: seq<real>)
      requires Valid() && built == [] && overruns == 0 && |clock| == |batches|
      requires forall k :: 0 <= k < |batches| ==> |batches[k]| <= burstMax
      requires Onward(clock) && Follows(clock, delayA) && Follows(clock, delayB)
      modifies this, ring, count, time
      ensures Valid() && built == batches && times == clock
      ensures overruns == 0 <==>
              forall n :: ring.Length <= n < |batches| ==> SlowAt(clock, delayA, delayB, haveB, ring.Length, n)
      ensures overruns <= if |batches| > ring.Length then |batches| - ring.Length else 0
      ensures overruns == 0 && clock != [] ==>
                var last := |clock| - 1;
                Upto(a, clock, 0, clock[last], delayA[last])
                && if haveB then Upto(b, clock, 0, clock[last], delayB[last]) else b.cur == a.cur
      ensures clock == [] ==> a.cur == b.cur == 0
    {
      hide SlotsOk, LegsOk, Upto, AllAccounted, SlowAt, Least, Longest, Onward, Follows;
      FollowsMore(clock, delayA, 0);
      FollowsMore(clock, delayB, 0);
      LegCursors(f, haveB, built, times, a, logA, b, logB, duplicated, overruns);
      var n := 0;
      while n < |batches|
        invariant n <= |batches| && Valid() && built == batches[..n] && times == clock[..n] && wslot == n
        invariant n == 0 ==> a.cur == b.cur == 0 && overruns == 0
        invariant n > 0 && overruns == 0 ==> Upto(a, times, 0, times[n - 1], delayA[n - 1])
        invariant n > 0 && overruns == 0 && haveB ==> Upto(b, times, 0, times[n - 1], delayB[n - 1])
        invariant !haveB ==> b.cur == a.cur
        invariant overruns == 0 <==>
                    forall m :: ring.Length <= m < n ==> SlowAt(clock, delayA, delayB, haveB, ring.Length, m)
        invariant overruns <= if n > ring.Length then n - ring.Length else 0
      {
        HeldFewer(ring[..], count[..], time[..], burstMax, built, times, Least(a.cur, b.cur), 0);
        if overruns == 0 { FullIff(clock, n, ring.Length, a, b, haveB, delayA, delayB); }
        NotFullYet(a, b, n, ring.Length);
        ghost var before, fromA, fromB := overruns, a, b;
        Iterate(batches[n], clock[n], delayA[n], delayB[n]);
        assert clock[..n + 1] == clock[..n] + [clock[n]];
        if overruns == 0 {
          UptoMore(clock, n, fromA, a, delayA);
          if haveB { UptoMore(clock, n, fromB, b, delayB); }
        }
        n := n + 1;
      }
      assert batches[..n] == batches && clock[..n] == clock;
    }

    /** With no skew the ring plays no part: on a clock that does not run backwards every
      * batch leaves on both legs in the iteration that built it, and no release is ever
      * forced, however few the slots. */
    method RunUnskewed(batches: seq<seq<T>>, clock: seq<real>)
      requires Valid() && built == [] && overruns == 0 && |clock| == |batches|
      requires forall k :: 0 <= k < |batches| ==> |batches[k]| <= burstMax
      requires Onward(clock)
      modifies this, ring, count, time
      ensures Valid() && built == batches && overruns == 0
      ensures a.cur == b.cur == |batches|
      ensures !f.Any() ==> Wire(logA) == Flat(batches) && (haveB ==> Wire(logB) == Flat(batches))
    {
      hide SlotsOk, LegsOk, Wire, Flat, Least;
      RunHeld(batches, clock, seq(|clock|, _ => 0.0), seq(|clock|, _ => 0.0));
      if clock != [] {
        NowDue(clock, a);
        NowDue(clock, b);
      }
      assert batches[..|batches|] == batches;
      LegsAreClean(f, haveB, built, times, a, logA, b, logB, duplicated, overruns);
    }
  }

  /** The longer delay of the legs there are. */
  function Longest(haveB: bool, delayA: real, delayB: real): real {
    if haveB && delayB > delayA then delayB else delayA
  }

  /** The clock does not run backwards. */
  ghost predicate Onward(clock: seq<real>) {
    forall i, j :: 0 <= i <= j < |clock| ==> clock[i] <= clock[j]
  }

  /** The delay of each reading grows no faster than the clock, so what is due stays due. */
  ghost predicate Follows(clock: seq<real>, delay: seq<real>) {
    |delay| == |clock| && forall i, j :: 0 <= i <= j < |clock| ==> delay[j] - delay[i] <= clock[j] - clock[i]
  }

  /** The `slots` batches before batch `n` took at least as long to build as the delay in
    * force when the last of them was. */
  predicate SlowAt(clock: seq<real>, delayA: seq<real>, delayB: seq<real>, haveB: bool, slots: nat, n: nat)
    requires 0 < slots <= n < |clock| == |delayA| == |delayB|
  {
    clock[n - 1] - clock[n - slots] >= Longest(haveB, delayA[n - 1], delayB[n - 1])
  }

  lemma FollowsMore(clock: seq<real>, delay: seq<real>, n: nat)
    requires Follows(clock, delay)
    ensures |delay| == |clock|
    ensures 0 < n < |clock| ==> delay[n] - delay[n - 1] <= clock[n] - clock[n - 1]
  {}

  lemma {:induction false} FullIff(clock: seq<real>, n: nat, slots: nat, a: Leg, b: Leg, haveB: bool,
                                   delayA: seq<real>, delayB: seq<real>)
    requires n < |clock| == |delayA| == |delayB| && slots > 0 && Onward(clock)
    requires if n == 0 then a.cur == b.cur == 0 else Upto(a, clock[..n], 0, clock[n - 1], delayA[n - 1])
    requires if haveB then n > 0 ==> Upto(b, clock[..n], 0, clock[n - 1], delayB[n - 1]) else b.cur == a.cur
    requires n <= Least(a.cur, b.cur) + slots
    ensures n == Least(a.cur, b.cur) + slots <==> n >= slots && !SlowAt(clock, delayA, delayB, haveB, slots, n)
  {
    if n >= slots {
      var k := n - slots;
      assert clock[..n][k] == clock[k];
      assert a.cur < n ==> clock[..n][a.cur] == clock[a.cur];
      assert haveB && b.cur < n ==> clock[..n][b.cur] == clock[b.cur];
    }
  }

  lemma NotFullYet(a: Leg, b: Leg, n: nat, slots: nat)
    ensures n == Least(a.cur, b.cur) + slots ==> n >= slots
  {}

  /** A leg that had sent all that was due has, a batch later, sent all that is due then. */
  lemma {:induction false} UptoMore(clock: seq<real>, n: nat, was: Leg, leg: Leg, delay: seq<real>)
    requires n < |clock| && Onward(clock) && Follows(clock, delay)
    requires if n == 0 then was.cur == 0 else Upto(was, clock[..n], 0, clock[n - 1], delay[n - 1])
    requires Upto(leg, clock[..n + 1], was.cur, clock[n], delay[n])
    ensures Upto(leg, clock[..n + 1], 0, clock[n], delay[n])
  {
    var before, now := clock[..n], clock[..n + 1];
    FollowsMore(clock, delay, n);
    forall k | 0 <= k < leg.cur ensures now[k] + delay[n] <= clock[n] {
      if k < was.cur { assert before[k] + delay[n - 1] <= clock[n - 1]; }
    }
  }

  lemma {:induction false} LeastForward(times: seq<real>, now: real, a: Leg, nextA: Leg, delayA: real,
                                        b: Leg, nextB: Leg, delayB: real, haveB: bool)
    requires Upto(nextA, times, a.cur, now, delayA)
    requires if haveB then Upto(nextB, times, b.cur, now, delayB) else b.cur == a.cur && nextB.cur == nextA.cur
    ensures Least(a.cur, b.cur) <= Least(nextA.cur, nextB.cur) <= |times|
  {}

  lemma {:induction false} LegCursors<T>(f: Faults, haveB: bool, built: seq<seq<T>>, times: seq<real>,
                     a: Leg, logA: seq<Delivery<T>>, b: Leg, logB: seq<Delivery<T>>,
                     duplicated: nat, overruns: nat)
    requires LegsOk(f, haveB, built, times, a, logA, b, logB, duplicated, overruns)
    ensures a.cur == |logA| <= |built| && b.cur <= |built| && |times| == |built|
    ensures if haveB then b.cur == |logB| else b.cur == a.cur
  {}

  lemma {:induction false} AllForcedNone<T>(log: seq<Delivery<T>>)
    ensures AllForced(log, |log|)
  {}

  lemma {:induction false} LegsAreClean<T>(f: Faults, haveB: bool, built: seq<seq<T>>, times: seq<real>,
                        a: Leg, logA: seq<Delivery<T>>, b: Leg, logB: seq<Delivery<T>>,
                        duplicated: nat, overruns: nat)
    requires LegsOk(f, haveB, built, times, a, logA, b, logB, duplicated, overruns)
    ensures a.cur <= |built| && !f.Any() ==> Wire(logA) == Flat(built[..a.cur])
    ensures b.cur <= |built| && haveB && !f.Any() ==> Wire(logB) == Flat(built[..b.cur])
  {
    hide Wire, Flat, Entries;
    if !f.Any() {
      CleanLegIsPrefix(f, built, times, logA);
      if haveB { CleanLegIsPrefix(f, built, times, logB); }
    }
  }

  lemma {:induction false} NowDue(clock: seq<real>, leg: Leg)
    requires clock != [] && Onward(clock) && Upto(leg, clock, 0, clock[|clock| - 1], 0.0)
    ensures leg.cur == |clock|
  {}

  /** A leg's cursor has come from `from` to the first batch not yet due. */
  ghost predicate Upto(leg: Leg, times: seq<real>, from: nat, now: real, delay: real) {
    && from <= leg.cur <= |times|
    && (forall k :: from <= k < leg.cur ==> times[k] + delay <= now)
    && (leg.cur < |times| ==> now < times[leg.cur] + delay)
  }

  /** A slot with a batch written over its front; what an earlier batch left behind stays. */
  function Overwritten<T>(slot: seq<T>, batch: seq<T>): (r: seq<T>)
    requires |batch| <= |slot|
    ensures |r| == |slot| && r[..|batch|] == batch
  {
    batch + slot[|batch|..]
  }

  lemma {:induction false} OverwrittenMore<T>(slot: seq<T>, batch: seq<T>, k: nat)
    requires k < |batch| <= |slot|
    ensures Overwritten(slot, batch[..k + 1]) == Overwritten(slot, batch[..k])[k := batch[k]]
  {}

  /** A batch may be built into the next slot once both legs are within the ring of it,
    * and then disturbs none of the batches waiting. */
  lemma {:induction false} BuildKeepsHeld<T>(ring: seq<seq<T>>, count: seq<nat>, time: seq<real>, burstMax: nat,
                          built: seq<seq<T>>, times: seq<real>, oldest: nat, batch: seq<T>, now: real)
    requires SlotsOk(ring, count, time, burstMax, built, times, oldest)
    requires |built| < oldest + |ring| && |batch| <= burstMax
    ensures var w := Merge.Slot(|built|, |ring|);
            && |count| == |time| == |ring|
            && SlotsOk(ring[w := Overwritten(ring[w], batch)], count[w := |batch|], time[w := now], burstMax,
                       built + [batch], times + [now], oldest)
  {
    var w := Merge.Slot(|built|, |ring|);
    forall k | oldest <= k < |built|
      ensures Merge.Slot(k, |ring|) != w && HeldAt(ring, count, time, built[k], times[k], Merge.Slot(k, |ring|))
    {
      Merge.DifferentSlots(k, |built|, |ring|);
    }
    hide Merge.Slot;
  }

  lemma {:induction false} SlotIsWide<T>(ring: seq<seq<T>>, count: seq<nat>, time: seq<real>, burstMax: nat,
                      built: seq<seq<T>>, times: seq<real>, oldest: nat)
    requires SlotsOk(ring, count, time, burstMax, built, times, oldest)
    ensures forall i :: 0 <= i < |ring| ==> |ring[i]| == burstMax
    ensures |count| == |time| == |ring|
  {}

  lemma {:induction false} LegCursor<T>(f: Faults, wantLoss: bool, built: seq<seq<T>>, times: seq<real>,
                     leg: Leg, log: seq<Delivery<T>>)
    requires LegOk(f, wantLoss, built, times, leg, log)
    ensures leg.cur == |log| <= |built| == |times| && leg.burstLeft == LogLeft(log)
  {}

  lemma {:induction false} HeldSlot<T>(ring: seq<seq<T>>, count: seq<nat>, time: seq<real>, burstMax: nat,
                    built: seq<seq<T>>, times: seq<real>, oldest: nat, k: nat)
    requires SlotsOk(ring, count, time, burstMax, built, times, oldest) && oldest <= k < |built|
    ensures |ring| == |count| == |time| > 0 && |built| == |times|
    ensures HeldAt(ring, count, time, built[k], times[k], Merge.Slot(k, |ring|))
  {}

  lemma {:induction false} HeldFewer<T>(ring: seq<seq<T>>, count: seq<nat>, time: seq<real>, burstMax: nat,
                     built: seq<seq<T>>, times: seq<real>, oldest: nat, newer: nat)
    requires SlotsOk(ring, count, time, burstMax, built, times, oldest)
    ensures oldest <= newer <= |built| ==> SlotsOk(ring, count, time, burstMax, built, times, newer)
    ensures oldest <= |built| <= oldest + |ring| && |built| == |times|
  {}

  lemma {:induction false} LegsSeeBuilt<T>(f: Faults, haveB: bool, built: seq<seq<T>>, times: seq<real>,
                        a: Leg, logA: seq<Delivery<T>>, b: Leg, logB: seq<Delivery<T>>,
                        duplicated: nat, overruns: nat, batch: seq<T>, now: real)
    requires LegsOk(f, haveB, built, times, a, logA, b, logB, duplicated, overruns)
    ensures LegsOk(f, haveB, built + [batch], times + [now], a, logA, b, logB, duplicated, overruns)
  {
    hide Entries;
    MoreBuilt(f, f.lossA, built, times, logA, batch, now);
    if haveB { MoreBuilt(f, f.lossB, built, times, logB, batch, now); }
  }

  /** From `from` on every batch was sent to free its slot. */
  ghost predicate AllForced<T>(log: seq<Delivery<T>>, from: nat) {
    forall k :: from <= k < |log| ==> log[k].forced
  }

  /** From `from` on every batch was sent because it was due at this reading and delay. */
  ghost predicate AllTimed<T>(log: seq<Delivery<T>>, from: nat, at: real, delay: real) {
    forall k :: from <= k < |log| ==> !log[k].forced && log[k].at == at && log[k].delay == delay
  }

  /** From `from` on every batch was sent for one reason or the other. */
  ghost predicate AllAccounted<T>(log: seq<Delivery<T>>, from: nat, at: real, delay: real) {
    forall k :: from <= k < |log| ==> log[k].forced || (log[k].at == at && log[k].delay == delay)
  }

  lemma {:induction false} Accounted<T>(mid: seq<Delivery<T>>, log: seq<Delivery<T>>, from: nat, at: real, delay: real)
    requires from <= |mid| <= |log| && log[..|mid|] == mid
    requires AllForced(mid, from) && AllTimed(log, |mid|, at, delay)
    ensures AllAccounted(log, from, at, delay)
  {
    forall k | from <= k < |log| ensures log[k].forced || (log[k].at == at && log[k].delay == delay) {
      if k < |mid| { assert log[k] == mid[k]; }
    }
  }

  ghost predicate Extends<T>(log: seq<Delivery<T>>, more: seq<Delivery<T>>, forced: bool, at: real, delay: real) {
    && |more| == |log| + 1 && more[..|log|] == log
    && more[|log|].forced == forced && more[|log|].at == at && more[|log|].delay == delay
  }

  lemma {:induction false} ExtendsKeeps<T>(log: seq<Delivery<T>>, was: seq<Delivery<T>>, more: seq<Delivery<T>>,
                        at: real, delay: real)
    requires |log| <= |was| && was[..|log|] == log && Extends(was, more, false, at, delay)
    requires AllTimed(was, |log|, at, delay)
    ensures |log| <= |more| && more[..|log|] == log && AllTimed(more, |log|, at, delay)
  {
    assert more[..|log|] == was[..|log|];
    assert forall k :: 0 <= k < |was| ==> more[k] == more[..|was|][k];
  }

  lemma {:induction false} LegSends<T>(f: Faults, wantLoss: bool, built: seq<seq<T>>, times: seq<real>,
                    leg: Leg, log: seq<Delivery<T>>, d: Delivery<T>)
    requires LegOk(f, wantLoss, built, times, leg, log) && leg.cur < |built| == |times|
    requires Delivered(f, wantLoss, built[leg.cur], d) && d.before == leg.burstLeft
    requires d.forced || times[leg.cur] + d.delay <= d.at
    ensures LegOk(f, wantLoss, built, times,
                  Leg(leg.cur + 1, d.LeftAfter(), leg.dropped + Dropped(d.fates)), log + [d])
    ensures LogDuplicated(log + [d]) == LogDuplicated(log) + Duplicated(d.fates)
    ensures LogForced(log + [d]) == LogForced(log) + if d.forced then 1 else 0
  {
    hide Delivered, Delivery<T>.LeftAfter, Entries, Dropped, Duplicated, LogDropped, LogDuplicated, LogForced, LogLeft;
    LogMore(f, wantLoss, built, times, log, d);
  }
}
