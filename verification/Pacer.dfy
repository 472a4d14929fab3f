/** The spin pacer: packets released against an absolute schedule, with the debt of
  * a stalled transmitter forgiven past half a second.
  *
  * The clock is a list of readings, in seconds since the start, one for each time
  * round the pacer's loop; no reading is assumed to follow another in any order.
  */
module Pacer {

  /** Packets due at a reading. */
  function Due(pps: real, elapsed: real): int { (elapsed * pps).Floor }

  /** The most debt the pacer will make up. */
  function CatchUpLimit(pps: real): int { (pps * 0.5).Floor + 1 }

  /** What is due is the schedule's packets that are whole by then; what is made up is at most
    * half a second's and one. */
  lemma Schedule(pps: real, elapsed: real)
    ensures Due(pps, elapsed) as real <= elapsed * pps < Due(pps, elapsed) as real + 1.0
    ensures CatchUpLimit(pps) as real - 1.0 <= pps / 2.0 < CatchUpLimit(pps) as real
  {}

  lemma LimitIsPositive(pps: real)
    requires pps > 0.0
    ensures CatchUpLimit(pps) >= 1
  {
    assert pps * 0.5 >= 0.0;
  }

  // ---------------------------------------------------------------------------
  // One reading of the clock
  // ---------------------------------------------------------------------------

  /** Packets issued on the schedule, granted to the caller, and forgiven. */
  datatype Meter = Meter(issued: int, granted: int, forgiven: int)

  /** The schedule after a debt beyond the limit has been forgiven. */
  function Clamp(limit: int, m: Meter, due: int): Meter {
    if due - m.issued > limit then
      m.(issued := due - limit, forgiven := m.forgiven + (due - limit - m.issued))
    else m
  }

  /** What one reading grants: zero if nothing is due yet. */
  function GrantAt(limit: int, m: Meter, due: int, maxBurst: int): int {
    var credit := due - Clamp(limit, m, due).issued;
    var burst := if maxBurst < 1 then 1 else maxBurst;
    if credit < 1 then 0 else if credit > burst then burst else credit
  }

  function MeterAt(limit: int, m: Meter, due: int, maxBurst: int): Meter {
    var g := GrantAt(limit, m, due, maxBurst);
    var c := Clamp(limit, m, due);
    c.(issued := c.issued + g, granted := c.granted + g)
  }

  /** Every packet on the schedule was granted or forgiven. */
  predicate Balanced(m: Meter) {
    m.issued == m.granted + m.forgiven && m.granted >= 0 && m.forgiven >= 0
  }

  /** A grant is within the burst and never runs ahead of the schedule; what is
    * forgiven is only the debt beyond the limit. */
  lemma GrantIsBounded(limit: int, m: Meter, due: int, maxBurst: int)
    requires limit >= 1 && Balanced(m)
    ensures var n, g := MeterAt(limit, m, due, maxBurst), GrantAt(limit, m, due, maxBurst);
            && Balanced(n)
            && 0 <= g <= (if maxBurst < 1 then 1 else maxBurst)
            && (g > 0 <==> due > m.issued)
            && (g > 0 ==> due - limit < n.issued <= due)
            && n.granted == m.granted + g
            && (n.forgiven > m.forgiven ==> due - m.issued > limit)
  {}

  // ---------------------------------------------------------------------------
  // Whole runs
  // ---------------------------------------------------------------------------

  /** A clock reading, as packets due, and the burst asked for at it. */
  datatype Poll = Poll(due: int, maxBurst: int)

  function After(limit: int, m: Meter, polls: seq<Poll>): Meter {
    if polls == [] then m
    else
      var p := polls[|polls| - 1];
      MeterAt(limit, After(limit, m, polls[..|polls| - 1]), p.due, p.maxBurst)
  }

  lemma {:induction false} RunBalances(limit: int, m: Meter, polls: seq<Poll>)
    requires limit >= 1 && Balanced(m)
    ensures Balanced(After(limit, m, polls))
  {
    if polls != [] {
      var p := polls[|polls| - 1];
      RunBalances(limit, m, polls[..|polls| - 1]);
      GrantIsBounded(limit, After(limit, m, polls[..|polls| - 1]), p.due, p.maxBurst);
    }
  }

  lemma {:induction false} IssuedOutrunsGranted(limit: int, m: Meter, polls: seq<Poll>, i: nat)
    requires limit >= 1 && Balanced(m) && i <= |polls|
    ensures var a, b := After(limit, m, polls[..i]), After(limit, m, polls);
            0 <= b.granted - a.granted <= b.issued - a.issued
    decreases |polls|
  {
    if i == |polls| {
      assert polls[..i] == polls;
    } else {
      var front, p := polls[..|polls| - 1], polls[|polls| - 1];
      assert front[..i] == polls[..i];
      IssuedOutrunsGranted(limit, m, front, i);
      RunBalances(limit, m, front);
      hide Balanced;
      GrantIsBounded(limit, After(limit, m, front), p.due, p.maxBurst);
    }
  }

  /** Asked often enough the pacer keeps to the schedule: if between one reading and the next no
    * more comes due than may be asked for and made up, everything due has been granted by
    * every reading and nothing is ever forgiven. */
  lemma {:induction false} KeepsUp(limit: int, m: Meter, polls: seq<Poll>)
    requires polls != [] && m.issued <= polls[0].due && Often(limit, m.issued, polls)
    ensures var due := polls[|polls| - 1].due;
            After(limit, m, polls) == Meter(due, m.granted + (due - m.issued), m.forgiven) && due >= m.issued
  {
    var front := polls[..|polls| - 1];
    assert OftenAt(limit, m.issued, polls, |polls| - 1);
    if front != [] {
      forall k | 0 <= k < |front| ensures OftenAt(limit, m.issued, front, k) {
        assert OftenAt(limit, m.issued, polls, k);
      }
      KeepsUp(limit, m, front);
    } else {
      assert After(limit, m, front) == m;
    }
  }

  ghost predicate Often(limit: int, issued: int, polls: seq<Poll>) {
    forall k :: 0 <= k < |polls| ==> OftenAt(limit, issued, polls, k)
  }

  predicate OftenAt(limit: int, issued: int, polls: seq<Poll>, k: nat)
    requires k < |polls|
  {
    var before := if k == 0 then issued else polls[k - 1].due;
    0 <= polls[k].due - before <= limit && polls[k].due - before <= polls[k].maxBurst
  }

  function Repeated(p: Poll, k: nat): (r: seq<Poll>)
    ensures |r| == k
  {
    if k == 0 then [] else Repeated(p, k - 1) + [p]
  }

  /** One full burst of a debt. */
  lemma FullBurst(limit: int, m: Meter, due: int, maxBurst: int)
    requires limit >= maxBurst >= 1 && due - m.issued >= maxBurst
    ensures GrantAt(limit, m, due, maxBurst) == maxBurst
    ensures var owed := if due - m.issued > limit then limit else due - m.issued;
            MeterAt(limit, m, due, maxBurst)
            == Meter(due - owed + maxBurst, m.granted + maxBurst, m.forgiven + (due - m.issued - owed))
  {}

  /** After a stall the catch-up comes in full bursts at one reading of the clock. */
  lemma {:induction false} CatchUpBurst(limit: int, m: Meter, due: int, maxBurst: int, k: nat)
    requires maxBurst >= 1 && due - m.issued >= limit >= k * maxBurst
    ensures var n := After(limit, m, Repeated(Poll(due, maxBurst), k));
            && n.granted == m.granted + k * maxBurst
            && (k > 0 ==> due - n.issued == limit - k * maxBurst && n.forgiven == m.forgiven + (due - m.issued - limit))
    ensures k > 0 ==>
              GrantAt(limit, After(limit, m, Repeated(Poll(due, maxBurst), k - 1)), due, maxBurst) == maxBurst
  {
    hide GrantAt, MeterAt, Balanced;
    if k > 0 {
      var before := (k - 1) * maxBurst;
      assert k * maxBurst == before + maxBurst && before >= 0;
      CatchUpBurst(limit, m, due, maxBurst, k - 1);
      var polls := Repeated(Poll(due, maxBurst), k);
      assert polls[..k - 1] == Repeated(Poll(due, maxBurst), k - 1) && polls[k - 1] == Poll(due, maxBurst);
      FullBurst(limit, After(limit, m, polls[..k - 1]), due, maxBurst);
    }
  }

  /** Token bucket: after a grant at one reading, whatever the clock did in between,
    * the packets released up to and with a grant at a later reading are fewer than
    * the packets scheduled between the two readings plus the catch-up limit. */
  lemma {:induction false} TokenBucket(limit: int, m: Meter, polls: seq<Poll>, i: nat)
    requires limit >= 1 && Balanced(m) && i + 1 < |polls|
    requires GrantAt(limit, After(limit, m, polls[..i]), polls[i].due, polls[i].maxBurst) > 0
    requires var last := |polls| - 1;
             GrantAt(limit, After(limit, m, polls[..last]), polls[last].due, polls[last].maxBurst) > 0
    ensures After(limit, m, polls).granted - After(limit, m, polls[..i + 1]).granted
            < polls[|polls| - 1].due - polls[i].due + limit
  {
    var upTo := polls[..i + 1];
    assert upTo[..i] == polls[..i];
    RunBalances(limit, m, polls[..i]);
    GrantIsBounded(limit, After(limit, m, polls[..i]), polls[i].due, polls[i].maxBurst);
    var front, last := polls[..|polls| - 1], polls[|polls| - 1];
    RunBalances(limit, m, front);
    GrantIsBounded(limit, After(limit, m, front), last.due, last.maxBurst);
    IssuedOutrunsGranted(limit, m, polls, i + 1);
  }

  // ---------------------------------------------------------------------------
  // The class
  // ---------------------------------------------------------------------------

  class SpinPacer {
    var pps: real
    var running: bool
    var issued: int
    var slots: nat
    var resyncs: nat
    ghost var granted: int
    ghost var forgiven: int

    ghost function Value(): Meter
      reads this
    {
      Meter(issued, granted, forgiven)
    }

    ghost predicate Valid()
      reads this
    {
      (running ==> pps > 0.0) && Balanced(Value())
    }

    constructor ()
      ensures Valid() && !running
    {
      pps, running, issued, slots, resyncs := 0.0, false, 0, 0, 0;
      granted, forgiven := 0, 0;
    }

    method Start(packetsPerSecond: real)
      modifies this
      ensures Valid() && Value() == Meter(0, 0, 0)
      ensures running <==> packetsPerSecond > 0.0
      ensures running ==> pps == packetsPerSecond
    {
      running := false;
      pps := if packetsPerSecond > 0.0 then packetsPerSecond else 0.0;
      issued, slots, resyncs, granted, forgiven := 0, 0, 0, 0, 0;
      if pps <= 0.0 { return; }
      running := true;
    }

    /** One time round the loop, at a reading `due` packets into the schedule. */
    method Reading(due: int, maxBurst: int) returns (credit: int)
      requires Valid() && running
      modifies `issued, `slots, `resyncs, `granted, `forgiven
      ensures credit == GrantAt(CatchUpLimit(pps), old(Value()), due, maxBurst)
      ensures Value() == MeterAt(CatchUpLimit(pps), old(Value()), due, maxBurst)
      ensures slots == old(slots) + (if credit > 0 then 1 else 0)
      ensures resyncs == old(resyncs) + (if due - old(issued) > CatchUpLimit(pps) then 1 else 0)
    {
      LimitIsPositive(pps);
      hide CatchUpLimit, Balanced;
      var burst := if maxBurst < 1 then 1 else maxBurst;
      var limit := CatchUpLimit(pps);
      credit := due - issued;
      if credit > limit {
        forgiven := forgiven + (due - limit - issued);
        issued := due - limit;
        credit := limit;
        resyncs := resyncs + 1;
      }
      if credit < 1 { return 0; }
      if credit > burst { credit := burst; }
      issued := issued + credit;
      slots := slots + 1;
      granted := granted + credit;
    }

    /** Spin until a packet is due.  `used` counts the readings taken; running out of
      * readings is the caller seeing the pacer still waiting. */
    method Acquire(maxBurst: int, clock: seq<real>) returns (grant: int, used: nat)
      requires Valid()
      modifies `issued, `slots, `resyncs, `granted, `forgiven
      ensures Valid() && used <= |clock|
      ensures !running ==> grant == 0 && used == 0
      ensures running && grant == 0 ==> used == |clock|
      ensures running && grant > 0 ==> 0 < used && issued <= Due(pps, clock[used - 1]) < issued + CatchUpLimit(pps)
      ensures 0 <= grant <= if maxBurst < 1 then 1 else maxBurst
      ensures granted == old(granted) + grant
      ensures Value() == After(CatchUpLimit(pps), old(Value()), Polls(pps, clock[..used], maxBurst))
    {
      hide CatchUpLimit, After, Polls, Due, Balanced, MeterAt, GrantAt;
      ghost var limit, start := CatchUpLimit(pps), Value();
      AfterNone(limit, start, pps, clock, maxBurst);
      used, grant := 0, 0;
      if !running { return; }
      while used < |clock|
        invariant used <= |clock| && grant == 0 && Valid() && granted == old(granted)
        invariant Value() == After(limit, start, Polls(pps, clock[..used], maxBurst))
      {
        var due := Due(pps, clock[used]);
        AfterMore(limit, start, pps, clock, used, maxBurst);
        LimitIsPositive(pps);
        GrantIsBounded(limit, Value(), due, maxBurst);
        grant := Reading(due, maxBurst);
        used := used + 1;
        if grant >= 1 { return; }
      }
    }
  }

  lemma {:induction false} AfterNone(limit: int, m: Meter, pps: real, clock: seq<real>, maxBurst: int)
    ensures After(limit, m, Polls(pps, clock[..0], maxBurst)) == m
  {}

  function Polls(pps: real, clock: seq<real>, maxBurst: int): (r: seq<Poll>)
    ensures |r| == |clock|
  {
    if clock == [] then []
    else Polls(pps, clock[..|clock| - 1], maxBurst) + [Poll(Due(pps, clock[|clock| - 1]), maxBurst)]
  }

  lemma {:induction false} AfterMore(limit: int, m: Meter, pps: real, clock: seq<real>, k: nat, maxBurst: int)
    requires k < |clock|
    ensures After(limit, m, Polls(pps, clock[..k + 1], maxBurst))
            == MeterAt(limit, After(limit, m, Polls(pps, clock[..k], maxBurst)), Due(pps, clock[k]), maxBurst)
  {
    hide MeterAt, Due;
    var polls := Polls(pps, clock[..k + 1], maxBurst);
    assert clock[..k + 1][..k] == clock[..k];
    assert polls[..k] == Polls(pps, clock[..k], maxBurst);
  }
}
