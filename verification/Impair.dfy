/** The impairments a leg may be given, and the coalescing of what is left into runs.
  *
  * Every draw of the random generator is an arbitrary choice here.
  */
module Impair {

  datatype Faults = Faults(lossA: bool, lossB: bool, burstLoss: bool, reorder: bool,
                           duplicate: bool, seqJump: bool) {
    predicate Any() { lossA || lossB || burstLoss || reorder || duplicate || seqJump }
  }

  /** What becomes of one datagram of a batch: sent once or twice, lost alone, or lost
    * in a glitch that has `rest` more datagrams to take. */
  datatype Fate = Once | Twice | Lost | Glitch(rest: nat)

  function Left(f: Fate): nat { if f.Glitch? then f.rest else 0 }

  /** The glitch still running before datagram `k`, when `left` more were owed before the batch. */
  function LeftBefore(fates: seq<Fate>, left: nat, k: nat): nat
    requires k <= |fates|
  {
    if k == 0 then left else Left(fates[k - 1])
  }

  /** A glitch that is running takes the next datagram; a new one takes 4 to 43; and
    * no impairment occurs that was not asked for. */
  predicate Plausible(f: Faults, wantLoss: bool, before: nat, fate: Fate) {
    if before > 0 then fate == Glitch(before - 1)
    else match fate
      case Glitch(rest) => f.burstLoss && 3 <= rest <= 42
      case Lost => wantLoss
      case Twice => f.duplicate
      case Once => true
  }

  ghost predicate Fated(f: Faults, wantLoss: bool, left: nat, fates: seq<Fate>) {
    forall k :: 0 <= k < |fates| ==> PlausibleAt(f, wantLoss, left, fates, k)
  }

  predicate PlausibleAt(f: Faults, wantLoss: bool, left: nat, fates: seq<Fate>, k: nat)
    requires k < |fates|
  {
    Plausible(f, wantLoss, LeftBefore(fates, left, k), fates[k])
  }

  function Copies(fate: Fate, k: nat): seq<nat> {
    match fate
    case Once => [k]
    case Twice => [k, k]
    case _ => []
  }

  /** The datagrams to send, in order, before any swap. */
  function Expand(fates: seq<Fate>): seq<nat> {
    if fates == [] then []
    else Expand(fates[..|fates| - 1]) + Copies(fates[|fates| - 1], |fates| - 1)
  }

  function Dropped(fates: seq<Fate>): nat {
    if fates == [] then 0
    else Dropped(fates[..|fates| - 1]) + if fates[|fates| - 1].Lost? || fates[|fates| - 1].Glitch? then 1 else 0
  }

  function Duplicated(fates: seq<Fate>): nat {
    if fates == [] then 0
    else Duplicated(fates[..|fates| - 1]) + if fates[|fates| - 1].Twice? then 1 else 0
  }

  /** No swap, or one of two neighbours. */
  datatype Swap = NoSwap | SwapAt(i: nat)

  predicate CanSwap(f: Faults, order: seq<nat>, s: Swap) {
    s.NoSwap? || (f.reorder && s.i + 1 < |order|)
  }

  function Swapped(order: seq<nat>, s: Swap): (r: seq<nat>)
    requires s.SwapAt? ==> s.i + 1 < |order|
    ensures |r| == |order|
  {
    if s.NoSwap? then order else order[s.i := order[s.i + 1]][s.i + 1 := order[s.i]]
  }

  predicate InRow(order: seq<nat>, n: nat) { forall k :: 0 <= k < |order| ==> order[k] < n }

  function Select<T>(row: seq<T>, order: seq<nat>): (r: seq<T>)
    requires InRow(order, |row|)
  {
    seq(|order|, k requires 0 <= k < |order| => row[order[k]])
  }

  lemma {:induction false} ExpandInRow(fates: seq<Fate>)
    ensures InRow(Expand(fates), |fates|)
  {
    if fates != [] { ExpandInRow(fates[..|fates| - 1]); }
  }

  lemma {:induction false} SwapInRow(order: seq<nat>, s: Swap, n: nat)
    requires InRow(order, n) && (s.SwapAt? ==> s.i + 1 < |order|)
    ensures InRow(Swapped(order, s), n)
  {}

  // ---------------------------------------------------------------------------
  // What the fates come to
  // ---------------------------------------------------------------------------

  /** Nothing goes missing unaccounted: sent and dropped make up built and duplicated. */
  lemma {:induction false} Ledger(fates: seq<Fate>)
    ensures |Expand(fates)| + Dropped(fates) == |fates| + Duplicated(fates)
  {
    if fates != [] { Ledger(fates[..|fates| - 1]); }
  }

  /** Each datagram goes out as often as its fate says, swap or no swap. */
  lemma {:induction false} EachAsFated(fates: seq<Fate>, s: Swap, k: nat)
    requires k < |fates| && (s.SwapAt? ==> s.i + 1 < |Expand(fates)|)
    ensures multiset(Swapped(Expand(fates), s))[k] == |Copies(fates[k], k)|
  {
    SwapKeeps(Expand(fates), s);
    ExpandCounts(fates, k);
  }

  lemma {:induction false} ExpandCounts(fates: seq<Fate>, k: nat)
    ensures multiset(Expand(fates))[k] == if k < |fates| then |Copies(fates[k], k)| else 0
  {
    hide Expand, Copies;
    ExpandStep(fates);
    if fates != [] {
      var front, last := fates[..|fates| - 1], Copies(fates[|fates| - 1], |fates| - 1);
      ExpandCounts(front, k);
      CopiesCount(fates[|fates| - 1], |fates| - 1, k);
      assert multiset(Expand(front) + last) == multiset(Expand(front)) + multiset(last);
    }
  }

  lemma {:induction false} ExpandStep(fates: seq<Fate>)
    ensures fates == [] ==> Expand(fates) == []
    ensures fates != [] ==>
              Expand(fates) == Expand(fates[..|fates| - 1]) + Copies(fates[|fates| - 1], |fates| - 1)
  {
    hide Copies;
  }

  lemma CopiesCount(fate: Fate, i: nat, k: nat)
    ensures multiset(Copies(fate, i))[k] == if k == i then |Copies(fate, i)| else 0
  {
    match fate
    case Once => assert Copies(fate, i) == [i];
    case Twice => assert Copies(fate, i) == [i] + [i];
    case _ => assert Copies(fate, i) == [];
  }

  lemma {:induction false} SwapKeeps(order: seq<nat>, s: Swap)
    requires s.SwapAt? ==> s.i + 1 < |order|
    ensures multiset(Swapped(order, s)) == multiset(order)
  {
    if s.SwapAt? {
      var i := s.i;
      assert order == order[..i] + [order[i], order[i + 1]] + order[i + 2..];
      assert Swapped(order, s) == order[..i] + [order[i + 1], order[i]] + order[i + 2..];
    }
  }

  /** With the impairments off and no glitch running, a batch goes out as built. */
  lemma {:induction false} Untouched<T>(row: seq<T>, f: Faults, wantLoss: bool, fates: seq<Fate>, s: Swap)
    requires |fates| == |row| && Fated(f, wantLoss, 0, fates) && CanSwap(f, Expand(fates), s)
    requires !f.Any() && !wantLoss
    ensures InRow(Expand(fates), |row|) && Select(row, Swapped(Expand(fates), s)) == row
    ensures LeftBefore(fates, 0, |fates|) == 0
  {
    AllOnce(f, fates, |fates|);
    ExpandInRow(fates);
    assert Expand(fates) == seq(|fates|, k requires 0 <= k < |fates| => k) by { OnceInOrder(fates); }
  }

  lemma {:induction false} AllOnce(f: Faults, fates: seq<Fate>, n: nat)
    requires n <= |fates| && Fated(f, false, 0, fates) && !f.Any()
    ensures forall k :: 0 <= k < n ==> fates[k] == Once
  {
    if n > 0 {
      AllOnce(f, fates, n - 1);
      assert PlausibleAt(f, false, 0, fates, n - 1);
    }
  }

  lemma {:induction false} OnceInOrder(fates: seq<Fate>)
    requires forall k :: 0 <= k < |fates| ==> fates[k] == Once
    ensures |Expand(fates)| == |fates| && forall k :: 0 <= k < |fates| ==> Expand(fates)[k] == k
  {
    if fates != [] { OnceInOrder(fates[..|fates| - 1]); }
  }

  /** A glitch is not a blip: one that starts takes the next three datagrams as well,
    * and as many as it says. */
  lemma {:induction false} GlitchRunsOn(f: Faults, wantLoss: bool, left: nat, fates: seq<Fate>, k: nat, j: nat)
    requires Fated(f, wantLoss, left, fates) && k + j < |fates|
    requires fates[k].Glitch? && LeftBefore(fates, left, k) == 0 && j <= fates[k].rest
    ensures fates[k + j] == Glitch(fates[k].rest - j) && 3 <= fates[k].rest <= 42
    decreases j
  {
    if j == 0 {
      FatedAt(f, wantLoss, left, fates, k);
    } else {
      GlitchRunsOn(f, wantLoss, left, fates, k, j - 1);
      FatedAt(f, wantLoss, left, fates, k + j);
    }
  }

  lemma {:induction false} FatedAt(f: Faults, wantLoss: bool, left: nat, fates: seq<Fate>, k: nat)
    requires Fated(f, wantLoss, left, fates) && k < |fates|
    ensures Plausible(f, wantLoss, if k == 0 then left else Left(fates[k - 1]), fates[k])
  {
    hide Plausible, Left;
    assert PlausibleAt(f, wantLoss, left, fates, k);
  }

  /** The fates of batches sent one after another are the fates of one long batch, so
    * a glitch runs on over the edge. */
  lemma {:induction false} FatedJoins(f: Faults, wantLoss: bool, left: nat, a: seq<Fate>, b: seq<Fate>)
    requires Fated(f, wantLoss, left, a) && Fated(f, wantLoss, LeftBefore(a, left, |a|), b)
    ensures Fated(f, wantLoss, left, a + b)
    ensures LeftBefore(a + b, left, |a + b|) == LeftBefore(b, LeftBefore(a, left, |a|), |b|)
  {
    hide Plausible, Left;
    forall k | 0 <= k < |a + b|
      ensures PlausibleAt(f, wantLoss, left, a + b, k)
    {
      if k < |a| {
        assert PlausibleAt(f, wantLoss, left, a, k);
      } else {
        assert PlausibleAt(f, wantLoss, LeftBefore(a, left, |a|), b, k - |a|);
      }
    }
  }

  // ---------------------------------------------------------------------------
  // Sending
  // ---------------------------------------------------------------------------

  lemma NoFates()
    ensures Expand([]) == [] && Dropped([]) == 0 && Duplicated([]) == 0
  {}

  lemma PlausibleBy(f: Faults, wantLoss: bool, before: nat, fate: Fate)
    requires before > 0 ==> fate == Glitch(before - 1)
    requires before == 0 && fate.Glitch? ==> f.burstLoss && 3 <= fate.rest <= 42
    requires before == 0 && fate.Lost? ==> wantLoss
    requires before == 0 && fate.Twice? ==> f.duplicate
    ensures Plausible(f, wantLoss, before, fate)
  {}

  lemma {:induction false} FatedMore(f: Faults, wantLoss: bool, left: nat, fates: seq<Fate>, fate: Fate)
    requires Fated(f, wantLoss, left, fates)
    requires Plausible(f, wantLoss, LeftBefore(fates, left, |fates|), fate)
    ensures var all := fates + [fate];
            && Fated(f, wantLoss, left, all)
            && LeftBefore(all, left, |all|) == Left(fate)
            && Expand(all) == Expand(fates) + Copies(fate, |fates|)
            && Dropped(all) == Dropped(fates) + (if fate.Lost? || fate.Glitch? then 1 else 0)
            && Duplicated(all) == Duplicated(fates) + (if fate.Twice? then 1 else 0)
  {
    var all := fates + [fate];
    assert all[..|fates|] == fates;
    assert Expand(all) == Expand(fates) + Copies(fate, |fates|);
    hide Plausible, Copies, Left, Expand;
    forall k | 0 <= k < |all|
      ensures PlausibleAt(f, wantLoss, left, all, k)
    {
      if k < |fates| { assert PlausibleAt(f, wantLoss, left, fates, k); }
    }
  }

  /** Send `order` of `row` in runs of consecutive datagrams, one call a run. */
  method SendRuns<T>(row: seq<T>, order: seq<nat>) returns (out: seq<T>, calls: nat)
    requires InRow(order, |row|)
    ensures out == Select(row, order) && calls <= |order|
  {
    out, calls := [], 0;
    var i := 0;
    while i < |order|
      invariant i <= |order| && calls <= i && out == Select(row, order[..i])
    {
      var j := i + 1;
      while j < |order| && order[j] == order[j - 1] + 1
        invariant i < j <= |order|
        invariant forall k :: i <= k < j ==> order[k] == order[i] + (k - i)
      {
        j := j + 1;
      }
      assert order[j - 1] == order[i] + (j - 1 - i);
      out := out + row[order[i]..order[i] + (j - i)];
      calls := calls + 1;
      i := j;
    }
    assert order[..|order|] == order;
  }

  /** Decide the fate of each datagram of a batch, and so the order they go out in.  The fates
    * are returned beside it, as the record of what was drawn. */
  method Draw(built: nat, f: Faults, wantLoss: bool, left: nat)
      returns (order: seq<nat>, burstLeft: nat, dropped: nat, duplicated: nat, fates: seq<Fate>)
    ensures |fates| == built && Fated(f, wantLoss, left, fates) && order == Expand(fates)
    ensures burstLeft == LeftBefore(fates, left, |fates|)
    ensures dropped == Dropped(fates) && duplicated == Duplicated(fates)
  {
    order, fates, burstLeft, dropped, duplicated := [], [], left, 0, 0;
    hide Expand, Dropped, Duplicated;
    NoFates();
    for k := 0 to built
      invariant |fates| == k && Fated(f, wantLoss, left, fates) && burstLeft == LeftBefore(fates, left, k)
      invariant order == Expand(fates) && dropped == Dropped(fates) && duplicated == Duplicated(fates)
    {
      hide Fated, Plausible, LeftBefore;
      var glitch, blip, again := *, *, *;
      var fate;
      ghost var before := burstLeft;
      if burstLeft > 0 {
        burstLeft, dropped := burstLeft - 1, dropped + 1;
        fate := Glitch(burstLeft);
      } else if f.burstLoss && glitch {
        var below: nat :| below < 40;
        burstLeft := 4 + below;
        burstLeft, dropped := burstLeft - 1, dropped + 1;
        fate := Glitch(burstLeft);
      } else if wantLoss && blip {
        dropped := dropped + 1;
        fate := Lost;
      } else {
        order := order + [k];
        if f.duplicate && again {
          order, duplicated := order + [k], duplicated + 1;
          fate := Twice;
        } else {
          fate := Once;
        }
      }
      PlausibleBy(f, wantLoss, before, fate);
      FatedMore(f, wantLoss, left, fates, fate);
      fates := fates + [fate];
    }
  }

  /** One batch down one leg, with that leg's impairments. */
  method Emit<T>(row: seq<T>, f: Faults, wantLoss: bool, left: nat)
      returns (out: seq<T>, burstLeft: nat, dropped: nat, duplicated: nat, reordered: nat,
               fates: seq<Fate>, s: Swap)
    ensures |fates| == |row| && Fated(f, wantLoss, left, fates) && CanSwap(f, Expand(fates), s)
    ensures burstLeft == LeftBefore(fates, left, |fates|)
    ensures dropped == Dropped(fates) && duplicated == Duplicated(fates)
    ensures reordered == if s.SwapAt? then 1 else 0
    ensures InRow(Swapped(Expand(fates), s), |row|) && out == Select(row, Swapped(Expand(fates), s))
  {
    var order;
    order, burstLeft, dropped, duplicated, fates := Draw(|row|, f, wantLoss, left);
    hide Expand, Dropped, Duplicated, Select, Fated, LeftBefore;
    s, reordered := NoSwap, 0;
    ExpandInRow(fates);
    var swap := *;
    if f.reorder && |order| >= 2 && swap {
      var i: nat :| i < |order| - 1;
      order := order[i := order[i + 1]][i + 1 := order[i]];
      s, reordered := SwapAt(i), 1;
      SwapInRow(Expand(fates), s, |row|);
    }
    var calls;
    out, calls := SendRuns(row, order);
  }

  /** A batch whole in one call when nothing is to be impaired, else through `Emit`. */
  method Dispatch<T>(row: seq<T>, f: Faults, wantLoss: bool, whole: bool, left: nat)
      returns (out: seq<T>, burstLeft: nat, dropped: nat, duplicated: nat, reordered: nat,
               fates: seq<Fate>, s: Swap)
    requires whole ==> !f.Any() && !wantLoss && left == 0
    ensures |fates| == |row| && Fated(f, wantLoss, left, fates) && CanSwap(f, Expand(fates), s)
    ensures burstLeft == LeftBefore(fates, left, |fates|)
    ensures dropped == Dropped(fates) && duplicated == Duplicated(fates)
    ensures reordered == if s.SwapAt? then 1 else 0
    ensures InRow(Swapped(Expand(fates), s), |row|) && out == Select(row, Swapped(Expand(fates), s))
  {
    if whole {
      out, burstLeft, dropped, duplicated, reordered := row, 0, 0, 0, 0;
      fates, s := seq(|row|, k => Once), NoSwap;
      WholeIsFated(row, f);
    } else {
      out, burstLeft, dropped, duplicated, reordered, fates, s := Emit(row, f, wantLoss, left);
    }
  }

  lemma {:induction false} WholeIsFated<T>(row: seq<T>, f: Faults)
    requires !f.Any()
    ensures var fates := seq(|row|, k => Once);
            && Fated(f, false, 0, fates) && LeftBefore(fates, 0, |fates|) == 0
            && InRow(Expand(fates), |row|) && Select(row, Expand(fates)) == row
            && Dropped(fates) == Duplicated(fates) == 0
  {
    var fates := seq(|row|, k => Once);
    assert Fated(f, false, 0, fates);
    Untouched(row, f, false, fates, NoSwap);
    OnceInOrder(fates);
    OnceDropsNone(fates);
    Ledger(fates);
  }

  lemma {:induction false} OnceDropsNone(fates: seq<Fate>)
    requires forall k :: 0 <= k < |fates| ==> fates[k].Once?
    ensures Dropped(fates) == 0
  {
    if fates != [] { OnceDropsNone(fates[..|fates| - 1]); }
  }
}
