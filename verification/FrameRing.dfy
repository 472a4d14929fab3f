/** The ring of whole frames between the producer thread and the transmitter.
  *
  * Every method is one section under the ring's lock, so any order of calls is an
  * interleaving of the two threads.  `next` is two sections, because it drops the
  * lock between retiring the frame just finished and taking the following one.
  */
module FrameRing {
  import opened Gf2

  /** What a section of `next` comes to. */
  datatype Got<+F> = Nothing | Repeated(frame: F) | Next(frame: F) | Retired

  datatype Pushed = Done | Waiting | Stopping

  class Ring<F(0)> {
    const slots: array<F>
    var head: nat
    var tail: nat
    var count: nat
    var checkedOut: bool
    var starves: nat

    ghost var pushed: seq<F>     // every frame ever pushed
    ghost var contents: seq<F>   // the frames in the ring, as they are now
    ghost var retired: nat       // how many of them have been retired
    ghost var between: bool      // the consumer is between its two sections
    ghost var given: seq<nat>    // which frame each call of `next` returned

    ghost predicate Valid()
      reads this, slots
    {
      && 0 < slots.Length && tail < slots.Length && count <= slots.Length
      && head == Place(tail, count, slots.Length)
      && |pushed| == retired + count
      && Holds(slots[..], tail, contents)
      && AsPushed(contents, pushed[retired..], checkedOut && !between)
      && (checkedOut ==> count > 0) && (between ==> checkedOut)
      && InOrder(given, retired, checkedOut, between)
    }

    constructor (depth: nat)
      requires depth > 0
      ensures Valid() && fresh(slots) && slots.Length == depth && pushed == [] && given == []
    {
      slots := new F[depth];
      head, tail, count, checkedOut, starves := 0, 0, 0, false, 0;
      pushed, contents, retired, between, given := [], [], 0, false, [];
    }

    /** The producer's section: copy a frame in, unless it has to wait or to stop. */
    method Push(frame: F, stopping: bool) returns (r: Pushed)
      requires Valid()
      modifies this, slots
      ensures Valid()
      ensures r == if stopping then Stopping else if old(count) < slots.Length then Done else Waiting
      ensures pushed == old(pushed) + (if r == Done then [frame] else [])
      ensures tail == old(tail) && retired == old(retired) && given == old(given)
      ensures checkedOut == old(checkedOut) && between == old(between)
      ensures checkedOut ==> slots[tail] == old(slots[tail])
      ensures contents == old(contents) + (if r == Done then [frame] else [])
    {
      if !(count < slots.Length || stopping) { return Waiting; }
      if stopping { return Stopping; }
      HoldsMore(slots[..], tail, contents, frame);
      PlaceIsMod(head, 1, slots.Length);
      assert (pushed + [frame])[retired..] == pushed[retired..] + [frame];
      slots[head] := frame;
      head := (head + 1) % slots.Length;
      count := count + 1;
      pushed, contents := pushed + [frame], contents + [frame];
      return Done;
    }

    /** The first section of `next`. */
    method NextBegin() returns (r: Got<F>)
      requires Valid() && !between
      modifies this
      ensures Valid()
      ensures pushed == old(pushed)
      ensures match r
              case Nothing => !checkedOut && given == old(given) && retired == old(retired) && count == old(count) == 0
              case Repeated(f) => old(checkedOut) && old(count) == 1 && retired == old(retired)
                                  && contents == old(contents) == [f] && given == old(given) + [retired]
              case Next(f) => !old(checkedOut) && retired == old(retired)
                              && retired < |pushed| && f == pushed[retired] && given == old(given) + [retired]
                              && contents == old(contents) && contents != [] && contents[0] == f
              case Retired => old(checkedOut) && between && retired == old(retired) + 1 && given == old(given)
    {
      hide Holds, Place;
      HoldsFirst(slots[..], tail, contents);
      var spare := count - if checkedOut then 1 else 0;
      if spare <= 0 {
        if !checkedOut { return Nothing; }
        starves := starves + 1;
        given := given + [retired];
        return Repeated(slots[tail]);
      }
      if checkedOut {
        HoldsFewer(slots[..], tail, contents);
        PlaceIsMod(tail, 1, slots.Length);
        assert pushed[retired..][1..] == pushed[retired + 1..];
        tail := (tail + 1) % slots.Length;
        count := count - 1;
        contents := contents[1..];
        retired, between := retired + 1, true;
        return Retired;
      }
      checkedOut := true;
      given := given + [retired];
      return Next(slots[tail]);
    }

    /** The second section, after the lock was dropped to wake the producer. */
    method NextFinish() returns (f: F)
      requires Valid() && between
      modifies this
      ensures Valid() && !between && checkedOut
      ensures pushed == old(pushed) && retired == old(retired)
      ensures f == pushed[retired] && given == old(given) + [retired]
      ensures contents == old(contents) && contents != [] && contents[0] == f
    {
      checkedOut := true;
      between := false;
      given := given + [retired];
      return slots[tail];
    }

    /** The consumer writes over the frame it has out; the frames waiting stay as they are. */
    method Edit(frame: F)
      requires Valid() && checkedOut && !between
      modifies this, slots
      ensures Valid() && checkedOut && !between
      ensures pushed == old(pushed) && given == old(given) && retired == old(retired) && count == old(count)
      ensures contents == [frame] + old(contents)[1..]
    {
      HoldsEdited(slots[..], tail, contents, frame);
      slots[tail] := frame;
      contents := [frame] + contents[1..];
    }

    /** Give back the checked-out frame, if any. */
    method ReleaseAll()
      requires Valid() && !between
      modifies this
      ensures Valid() && !checkedOut && pushed == old(pushed) && given == old(given)
      ensures retired == old(retired) + if old(checkedOut) then 1 else 0
    {
      hide Holds, Place;
      if !checkedOut { return; }
      HoldsFewer(slots[..], tail, contents);
      PlaceIsMod(tail, 1, slots.Length);
      assert pushed[retired..][1..] == pushed[retired + 1..];
      checkedOut := false;
      tail := (tail + 1) % slots.Length;
      count := count - 1;
      contents := contents[1..];
      retired := retired + 1;
    }
  }

  /** The slot `j` places after `tail`. */
  function Place(tail: nat, j: nat, depth: nat): nat {
    if tail + j < depth then tail + j else tail + j - depth
  }

  /** Places are positions modulo the depth. */
  lemma PlaceIsMod(tail: nat, j: nat, depth: nat)
    requires tail < depth && j <= depth
    ensures (tail + j) % depth == Place(tail, j, depth)
  {
    DivModUnique(tail + j, if tail + j < depth then 0 else 1, Place(tail, j, depth), depth);
  }

  /** From the tail on, the slots hold exactly these frames. */
  ghost predicate Holds<F>(slots: seq<F>, tail: nat, frames: seq<F>) {
    && tail < |slots| && |frames| <= |slots|
    && (forall j :: 0 <= j < |frames| ==> slots[Place(tail, j, |slots|)] == frames[j])
  }

  // The slot a push writes holds none of the frames.
  lemma {:induction false} HoldsMore<F>(slots: seq<F>, tail: nat, frames: seq<F>, frame: F)
    requires Holds(slots, tail, frames) && |frames| < |slots|
    ensures Holds(slots[Place(tail, |frames|, |slots|) := frame], tail, frames + [frame])
  {}

  lemma {:induction false} HoldsFewer<F>(slots: seq<F>, tail: nat, frames: seq<F>)
    requires Holds(slots, tail, frames) && frames != []
    ensures Holds(slots, Place(tail, 1, |slots|), frames[1..])
    ensures Place(Place(tail, 1, |slots|), |frames| - 1, |slots|) == Place(tail, |frames|, |slots|)
  {
    forall j | 0 <= j < |frames| - 1
      ensures slots[Place(Place(tail, 1, |slots|), j, |slots|)] == frames[1..][j]
    {
      assert Place(Place(tail, 1, |slots|), j, |slots|) == Place(tail, j + 1, |slots|);
    }
  }

  lemma {:induction false} HoldsFirst<F>(slots: seq<F>, tail: nat, frames: seq<F>)
    requires Holds(slots, tail, frames)
    ensures tail < |slots| && |frames| <= |slots| && (frames != [] ==> slots[tail] == frames[0])
  {
    if frames != [] { assert slots[Place(tail, 0, |slots|)] == frames[0]; }
  }

  lemma {:induction false} HoldsEdited<F>(slots: seq<F>, tail: nat, frames: seq<F>, frame: F)
    requires Holds(slots, tail, frames) && frames != []
    ensures Holds(slots[tail := frame], tail, [frame] + frames[1..])
  {}

  /** The frames in the ring are those pushed, but for the first if the consumer has it out. */
  ghost predicate AsPushed<F>(contents: seq<F>, pushed: seq<F>, out: bool) {
    && |contents| == |pushed|
    && if out && pushed != [] then contents[1..] == pushed[1..] else contents == pushed
  }

  /** The frames returned so far: from the first on, each call gives the same frame
    * again or the one after it, and the last one given is the one still out. */
  ghost predicate InOrder(given: seq<nat>, retired: nat, checkedOut: bool, between: bool) {
    && (given != [] ==> given[0] == 0)
    && (forall i :: 0 < i < |given| ==> given[i] == given[i - 1] || given[i] == given[i - 1] + 1)
    && (if given == [] then retired == 0 && !checkedOut
        else if checkedOut && !between then given[|given| - 1] == retired
        else given[|given| - 1] + 1 == retired)
  }

  // ---------------------------------------------------------------------------
  // Every interleaving
  // ---------------------------------------------------------------------------

  datatype Op<+F> = ProducerPush(frame: F, stopping: bool) | ConsumerStep | ConsumerEdit(frame: F) | ConsumerRelease

  /** What the consumer sees and does: frame `index` of those pushed is given to it with
    * these contents, or it leaves them in the frame it has out. */
  datatype Event<+F> = Gave(index: nat, frame: F) | Edited(index: nat, frame: F)

  /** The first frame given is the first pushed, as it was pushed.  After that each one given
    * is the next pushed, as it was pushed, or the same again as the consumer left it. */
  ghost predicate Coherent<F>(log: seq<Event<F>>, pushed: seq<F>) {
    forall k :: 0 <= k < |log| ==> CoherentAt(log, pushed, k)
  }

  ghost predicate CoherentAt<F>(log: seq<Event<F>>, pushed: seq<F>, k: nat)
    requires k < |log|
  {
    && log[k].index < |pushed|
    && match log[k]
       case Gave(index, frame) =>
         if k == 0 then index == 0 && frame == pushed[0]
         else
           || (index == log[k - 1].index + 1 && frame == pushed[index])
           || (index == log[k - 1].index && frame == log[k - 1].frame)
       case Edited(index, _) => k > 0 && index == log[k - 1].index
  }

  lemma {:induction false} CoherentMore<F>(log: seq<Event<F>>, pushed: seq<F>, e: Event<F>)
    requires Coherent(log, pushed) && CoherentAt(log + [e], pushed, |log|)
    ensures Coherent(log + [e], pushed)
  {
    var all := log + [e];
    forall k | 0 <= k < |all| ensures CoherentAt(all, pushed, k) {
      if k < |log| { assert CoherentAt(log, pushed, k); }
    }
  }

  lemma {:induction false} CoherentPush<F>(log: seq<Event<F>>, pushed: seq<F>, frame: F)
    requires Coherent(log, pushed)
    ensures Coherent(log, pushed + [frame])
  {
    forall k | 0 <= k < |log| ensures CoherentAt(log, pushed + [frame], k) { assert CoherentAt(log, pushed, k); }
  }

  /** The frames pushed are those of the pushes of the schedule that were taken, in order. */
  ghost predicate Pushes<F>(schedule: seq<Op<F>>, taken: seq<nat>, pushed: seq<F>) {
    && |taken| == |pushed|
    && (forall i :: 0 <= i < |taken| ==>
          taken[i] < |schedule| && schedule[taken[i]].ProducerPush? && schedule[taken[i]].frame == pushed[i])
    && (forall i, j :: 0 <= i < j < |taken| ==> taken[i] < taken[j])
  }

  /** Where the log stands against the ring: the last entry is the frame out, as it is. */
  ghost predicate InStep<F(0)>(log: seq<Event<F>>, ring: Ring<F>)
    reads ring
  {
    && (log == [] <==> ring.given == [])
    && (log != [] ==> log[|log| - 1].index == ring.given[|ring.given| - 1])
    && (ring.checkedOut && !ring.between ==>
          log != [] && ring.contents != [] && log[|log| - 1].index == ring.retired
          && log[|log| - 1].frame == ring.contents[0])
  }

  lemma {:induction false} CoherentNone<F>(pushed: seq<F>)
    ensures Coherent([], pushed)
  {}

  /** One section of `next`, and what it adds to the log. */
  method Step<F(0)>(ring: Ring<F>, midway: bool, log: seq<Event<F>>) returns (more: seq<Event<F>>, halfway: bool)
    requires ring.Valid() && midway == ring.between && Coherent(log, ring.pushed) && InStep(log, ring)
    modifies ring
    ensures ring.Valid() && halfway == ring.between && ring.pushed == old(ring.pushed)
    ensures Coherent(more, ring.pushed) && InStep(more, ring)
  {
    hide Holds, AsPushed, Coherent, Place;
    var next := if log == [] then 0 else log[|log| - 1].index + 1;
    if midway {
      var f := ring.NextFinish();
      CoherentMore(log, ring.pushed, Gave(next, f));
      return log + [Gave(next, f)], false;
    }
    var r := ring.NextBegin();
    match r {
      case Nothing => return log, false;
      case Retired => return log, true;
      case Repeated(f) =>
        var again := log[|log| - 1].index;
        CoherentMore(log, ring.pushed, Gave(again, f));
        return log + [Gave(again, f)], false;
      case Next(f) =>
        CoherentMore(log, ring.pushed, Gave(next, f));
        return log + [Gave(next, f)], false;
    }
  }

  lemma {:induction false} Beginning<F(0)>(ring: Ring<F>, schedule: seq<Op<F>>)
    requires ring.Valid() && !ring.between && ring.given == [] && ring.pushed == []
    ensures InStep([], ring) && Pushes(schedule[..0], [], ring.pushed)
  {}

  method TryPush<F(0)>(ring: Ring<F>, frame: F, stopping: bool, log: seq<Event<F>>) returns (took: bool)
    requires ring.Valid() && Coherent(log, ring.pushed) && InStep(log, ring)
    modifies ring, ring.slots
    ensures ring.Valid() && Coherent(log, ring.pushed) && InStep(log, ring)
    ensures ring.pushed == old(ring.pushed) + (if took then [frame] else []) && ring.between == old(ring.between)
    ensures !took ==> ring.pushed == old(ring.pushed)
  {
    hide Holds, AsPushed, Coherent, Place;
    CoherentPush(log, ring.pushed, frame);
    var r := ring.Push(frame, stopping);
    took := r == Done;
    assert old(ring.pushed) + [] == old(ring.pushed);
  }

  /** The consumer writes over the frame it has out, and the log says so. */
  method Rewrite<F(0)>(ring: Ring<F>, frame: F, log: seq<Event<F>>) returns (more: seq<Event<F>>)
    requires ring.Valid() && ring.checkedOut && !ring.between && Coherent(log, ring.pushed) && InStep(log, ring)
    modifies ring, ring.slots
    ensures ring.Valid() && !ring.between && ring.pushed == old(ring.pushed)
    ensures Coherent(more, ring.pushed) && InStep(more, ring)
  {
    hide Holds, AsPushed, Coherent, Place;
    EditIsCoherent(log, ring.pushed, frame);
    ring.Edit(frame);
    more := log + [Edited(log[|log| - 1].index, frame)];
  }

  method PutBack<F(0)>(ring: Ring<F>, ghost log: seq<Event<F>>)
    requires ring.Valid() && !ring.between && InStep(log, ring)
    modifies ring
    ensures ring.Valid() && !ring.between && ring.pushed == old(ring.pushed) && InStep(log, ring)
  {
    hide Holds, AsPushed, Place;
    ring.ReleaseAll();
  }

  /** Any schedule of sections, the consumer's in its program order, with the consumer
    * writing over the frame it has out whenever it likes: it is given the frames pushed, in
    * order from the first, with repeats but no skip, each as it was pushed when it is given
    * first and as the consumer left it when it is repeated. */
  method Interleave<F(0)>(ring: Ring<F>, schedule: seq<Op<F>>) returns (log: seq<Event<F>>, taken: seq<nat>)
    requires ring.Valid() && !ring.between && ring.given == [] && ring.pushed == []
    modifies ring, ring.slots
    ensures ring.Valid()
    ensures Coherent(log, ring.pushed)
    ensures Pushes(schedule, taken, ring.pushed)
  {
    hide Ring<F>.Valid, Coherent, InStep, Pushes;
    log, taken := [], [];
    CoherentNone(ring.pushed);
    Beginning(ring, schedule);
    var midway := false;
    for i := 0 to |schedule|
      invariant ring.Valid() && midway == ring.between
      invariant Coherent(log, ring.pushed) && InStep(log, ring)
      invariant Pushes(schedule[..i], taken, ring.pushed)
    {
      PushesMore(schedule, i, taken, ring.pushed);
      match schedule[i] {
        case ProducerPush(frame, stopping) =>
          var took := TryPush(ring, frame, stopping, log);
          if took { taken := taken + [i]; }
        case ConsumerStep =>
          log, midway := Step(ring, midway, log);
        case ConsumerEdit(frame) =>
          if !midway && ring.checkedOut { log := Rewrite(ring, frame, log); }
        case ConsumerRelease =>
          if !midway { PutBack(ring, log); }
      }
    }
    assert schedule[..|schedule|] == schedule;
  }

  lemma {:induction false} EditIsCoherent<F>(log: seq<Event<F>>, pushed: seq<F>, frame: F)
    requires Coherent(log, pushed) && log != []
    ensures Coherent(log + [Edited(log[|log| - 1].index, frame)], pushed)
  {
    assert CoherentAt(log, pushed, |log| - 1);
    CoherentMore(log, pushed, Edited(log[|log| - 1].index, frame));
  }

  lemma {:induction false} PushesMore<F>(schedule: seq<Op<F>>, i: nat, taken: seq<nat>, pushed: seq<F>)
    requires i < |schedule| && Pushes(schedule[..i], taken, pushed)
    ensures Pushes(schedule[..i + 1], taken, pushed)
    ensures schedule[i].ProducerPush? ==> Pushes(schedule[..i + 1], taken + [i], pushed + [schedule[i].frame])
  {
    var before, now := schedule[..i], schedule[..i + 1];
    forall k | 0 <= k < |taken| ensures now[taken[k]] == before[taken[k]] {}
  }
}
