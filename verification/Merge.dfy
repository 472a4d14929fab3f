/** What one pass over a pair of ST 2022-7 captures delivers, sequence number by
  * sequence number: the meaning of the two-leg merge.
  *
  * A leg is the list of its usable datagrams.  Each gets an absolute number; a
  * direct-mapped window keeps the latest datagram per residue of its number; a
  * cursor walks the numbers and takes red's datagram, else blue's, else a hole.
  */
module Merge {
  import opened Wrappers

  /** A datagram that parsed, as the reader sees it: the raw 16-bit sequence. */
  datatype Media = Media(dst: nat, seq16: nat, marker: bool, payload: seq<Byte>)

  /** A datagram with its absolute number. */
  datatype Entry = Entry(number: nat, marker: bool, payload: seq<Byte>)

  const U64: nat := 0x1_0000_0000_0000_0000

  // ---------------------------------------------------------------------------
  // Numbering
  // ---------------------------------------------------------------------------

  /** The value congruent to `raw` nearest `near`, in unsigned 64-bit arithmetic. */
  function AbsNear(raw: nat, near: nat): nat {
    var up := (raw - near) % 0x10000;
    var delta := if up < 0x8000 then up else up - 0x10000;
    (near + delta) % U64
  }

  function NumberOf(raw: nat, near: Option<nat>): nat {
    match near
    case None => raw
    case Some(n) => AbsNear(raw, n)
  }

  function Numbered(ms: seq<Media>, anchor: Option<nat>): (r: seq<Entry>)
    ensures |r| == |ms|
  {
    if ms == [] then []
    else
      var front := Numbered(ms[..|ms| - 1], anchor);
      var m := ms[|ms| - 1];
      var near := if front == [] then anchor else Some(front[|front| - 1].number);
      front + [Entry(NumberOf(m.seq16, near), m.marker, m.payload)]
  }

  lemma {:induction false} NumberedPrefix(ms: seq<Media>, anchor: Option<nat>, k: nat)
    requires k <= |ms|
    ensures Numbered(ms, anchor)[..k] == Numbered(ms[..k], anchor)
  {
    if k == |ms| {
      assert ms[..k] == ms;
    } else {
      var front := ms[..|ms| - 1];
      NumberedPrefix(front, anchor, k);
      assert front[..k] == ms[..k];
      assert Numbered(ms, anchor)[..k] == Numbered(front, anchor)[..k];
    }
  }

  // Where the raw sequence is that of `want`, at most half the 16-bit space away,
  // resolving it gives `want` back.
  lemma AbsNearExact(want: nat, near: nat)
    requires -0x8000 <= want - near < 0x8000 && want < U64
    ensures AbsNear(want % 0x10000, near) == want
  {
    var d := want - near;
    assert (want % 0x10000 - near) % 0x10000 == d % 0x10000;
    assert d % 0x10000 == if d >= 0 then d else d + 0x10000;
    assert near + d == want;
  }

  // Below zero the unsigned result wraps to the top of the 64-bit space.
  lemma AbsNearBelowZero(raw: nat, d: nat, near: nat)
    requires near < d <= 0x8000 && raw < 0x10000 && (raw - near + d) % 0x10000 == 0
    ensures AbsNear(raw, near) == U64 + near - d
  {
    assert (raw - near) % 0x10000 == 0x10000 - d;
  }

  /** The raw datagrams carry the numbers `ns`, which climb by less than half the
    * 16-bit space at a time. */
  ghost predicate Carries(ms: seq<Media>, ns: seq<nat>) {
    && |ms| == |ns|
    && (forall i :: 0 <= i < |ns| ==> ms[i].seq16 == ns[i] % 0x10000 && ns[i] < U64)
    && (forall i :: 0 < i < |ns| ==> ns[i - 1] < ns[i] < ns[i - 1] + 0x8000)
  }

  ghost predicate Anchors(anchor: Option<nat>, first: nat) {
    match anchor
    case None => first < 0x10000
    case Some(a) => -0x8000 <= first - a < 0x8000
  }

  /** Unwrapping recovers the numbers across any number of 16-bit wraps. */
  lemma {:induction false} NumberedRecovers(ms: seq<Media>, anchor: Option<nat>, ns: seq<nat>)
    requires Carries(ms, ns) && (ns != [] ==> Anchors(anchor, ns[0]))
    ensures forall i :: 0 <= i < |ms| ==> Numbered(ms, anchor)[i].number == ns[i]
  {
    var n := |ms|;
    if n > 0 {
      var front := ms[..n - 1];
      NumberedRecovers(front, anchor, ns[..n - 1]);
      var u := Numbered(front, anchor);
      assert Numbered(ms, anchor)[..n - 1] == u;
      if n == 1 {
        if anchor.Some? { AbsNearExact(ns[0], anchor.value); }
      } else {
        assert u[n - 2].number == ns[n - 2];
        AbsNearExact(ns[n - 1], ns[n - 2]);
      }
    }
  }

  // ---------------------------------------------------------------------------
  // Reading ahead of the cursor, and the window
  // ---------------------------------------------------------------------------

  /** How far a leg has been read once it is ahead of `cursor`, from `k` on. */
  function Reach(us: seq<Entry>, k: nat, cursor: nat): (r: nat)
    requires k <= |us|
    ensures k <= r <= |us|
    decreases |us| - k
  {
    if k == |us| || (k > 0 && us[k - 1].number > cursor) then k else Reach(us, k + 1, cursor)
  }

  // Only the last datagram read is above the cursor, and it is unless the leg ended.
  lemma {:induction false} ReachStops(us: seq<Entry>, k: nat, cursor: nat)
    requires k <= |us|
    ensures var r := Reach(us, k, cursor);
            && (r < |us| ==> r > 0 && us[r - 1].number > cursor)
            && (forall j :: 0 <= j < r - 1 && k <= j + 1 ==> us[j].number <= cursor)
    decreases |us| - k
  {
    if !(k == |us| || (k > 0 && us[k - 1].number > cursor)) {
      ReachStops(us, k + 1, cursor);
    }
  }

  // Reading up to one cursor and then a later one is reading up to the later one.
  lemma {:induction false} ReachAgain(us: seq<Entry>, k: nat, c: nat, d: nat)
    requires k <= |us| && c <= d
    ensures Reach(us, Reach(us, k, c), d) == Reach(us, k, d)
    decreases |us| - k
  {
    if !(k == |us| || (k > 0 && us[k - 1].number > c)) {
      ReachAgain(us, k + 1, c, d);
    }
  }

  function Slot(n: nat, window: nat): (r: nat)
    requires window > 0
    ensures r < window
  {
    n % window
  }

  /** The latest entry read into a slot. */
  function Latest(read: seq<Entry>, window: nat, slot: nat): Option<Entry>
    requires window > 0
  {
    if read == [] then None
    else
      var e := read[|read| - 1];
      if Slot(e.number, window) == slot then Some(e) else Latest(read[..|read| - 1], window, slot)
  }

  /** What the window answers for a number: never an entry with another number. */
  function Lookup(read: seq<Entry>, window: nat, n: nat): (r: Option<Entry>)
    requires window > 0
    ensures r.Some? ==> r.value.number == n
  {
    match Latest(read, window, Slot(n, window))
    case None => None
    case Some(e) => if e.number == n then Some(e) else None
  }

  lemma {:induction false} LatestIsRead(read: seq<Entry>, window: nat, slot: nat)
    requires window > 0
    ensures Latest(read, window, slot).Some? ==> Latest(read, window, slot).value in read
  {
    if read != [] { LatestIsRead(read[..|read| - 1], window, slot); }
  }

  ghost predicate Climbs(us: seq<Entry>) {
    forall i, j :: 0 <= i < j < |us| ==> us[i].number < us[j].number
  }

  /** On a climbing leg the datagram numbered like the cursor is found exactly when
    * the next one, read just before, has not taken its slot. */
  lemma {:induction false} LookupExact(us: seq<Entry>, window: nat, i: nat)
    requires window > 0 && i < |us| && Climbs(us)
    ensures var c := us[i].number;
            var r := Lookup(us[..Reach(us, 0, c)], window, c);
            && (r == Some(us[i]) <==>
                  i + 1 == |us| || Slot(us[i + 1].number, window) != Slot(c, window))
            && (r != Some(us[i]) ==> r == None)
  {
    var c := us[i].number;
    hide Slot, Reach;
    ReachOfClimbing(us, i);
    var upTo := us[..i + 1];
    assert upTo[|upTo| - 1] == us[i];
    assert Latest(upTo, window, Slot(c, window)) == Some(us[i]);
    if i + 1 < |us| {
      var ahead := us[..i + 2];
      assert ahead[|ahead| - 1] == us[i + 1] && ahead[..|ahead| - 1] == upTo;
      assert us[i + 1].number > c;
    }
  }

  /** The latest entry of a slot is the one with none of that slot behind it. */
  lemma {:induction false} LatestIs(read: seq<Entry>, window: nat, slot: nat) returns (p: nat)
    requires window > 0
    ensures Latest(read, window, slot) == None ==>
              forall j :: 0 <= j < |read| ==> Slot(read[j].number, window) != slot
    ensures Latest(read, window, slot).Some? ==>
              && p < |read| && Latest(read, window, slot) == Some(read[p]) && Slot(read[p].number, window) == slot
              && forall j :: p < j < |read| ==> Slot(read[j].number, window) != slot
  {
    hide Slot;
    p := 0;
    if read != [] {
      var n := |read| - 1;
      if Slot(read[n].number, window) == slot { p := n; } else { p := LatestIs(read[..n], window, slot); }
    }
  }

  /** The datagram at `i` is a copy of number `c` that was read, with none after it in its slot. */
  ghost predicate LastRead(us: seq<Entry>, window: nat, c: nat, i: nat)
    requires window > 0
  {
    && i < |us| && us[i].number == c
    && (forall j :: 0 <= j < i ==> us[j].number <= c)
    && (forall j :: i < j < Reach(us, 0, c) ==> Slot(us[j].number, window) != Slot(c, window))
  }

  /** In whatever order a leg carries its numbers, and however often, a number is found when
    * the cursor comes to it exactly if nothing above it came before some copy of it, and nothing
    * read with that copy and after it took its slot; what is found is that copy. */
  lemma {:induction false} LookupAnyOrder(us: seq<Entry>, window: nat, c: nat)
    requires window > 0
    ensures var found := Lookup(us[..Reach(us, 0, c)], window, c);
            && (found.Some? <==> exists i: nat :: LastRead(us, window, c, i))
            && forall i: nat :: LastRead(us, window, c, i) ==> found == Some(us[i])
  {
    hide Slot, Reach, Latest;
    var k := Reach(us, 0, c);
    var read := us[..k];
    ReachStops(us, 0, c);
    var p := LatestIs(read, window, Slot(c, window));
    forall i: nat | LastRead(us, window, c, i) ensures Lookup(read, window, c) == Some(us[i]) {
      ReadWhenBelow(us, i);
      assert read[i] == us[i];
      assert read[p] == us[p];
    }
    if Lookup(read, window, c).Some? {
      assert read[p] == us[p];
      assert forall j :: p < j < k ==> read[j] == us[j];
      assert LastRead(us, window, c, p);
    }
  }

  /** A datagram is read by the time the cursor is at it exactly if none before it is above it. */
  lemma {:induction false} ReadWhenBelow(us: seq<Entry>, i: nat)
    requires i < |us|
    ensures i < Reach(us, 0, us[i].number) <==> forall j :: 0 <= j < i ==> us[j].number <= us[i].number
  {
    hide Reach;
    var c := us[i].number;
    var k := Reach(us, 0, c);
    ReachStops(us, 0, c);
    if k <= i {
      assert us[k - 1].number > c;
    }
  }

  /** A leg numbered 5, 7, 6: the cursor finds no 6, though the leg carries it. */
  lemma ReorderedIsLost(m: bool, p: seq<Byte>)
    ensures var us := [Entry(5, m, p), Entry(7, m, p), Entry(6, m, p)];
            At(us, 6) == Some(Entry(6, m, p)) && Lookup(us[..Reach(us, 0, 6)], 8192, 6) == None
  {
    var us := [Entry(5, m, p), Entry(7, m, p), Entry(6, m, p)];
    assert us[2].number == 6 && us[1].number == 7;
    LookupAnyOrder(us, 8192, 6);
  }

  lemma {:induction false} ReachOfClimbing(us: seq<Entry>, i: nat)
    requires i < |us| && Climbs(us)
    ensures Reach(us, 0, us[i].number) == if i + 1 < |us| then i + 2 else i + 1
  {
    var c := us[i].number;
    var k := Reach(us, 0, c);
    ReachStops(us, 0, c);
    assert k > 0 && (k < |us| ==> us[k - 1].number > c);
    assert forall j :: 0 <= j < |us| ==> (us[j].number > c <==> j > i);
    assert i + 1 < |us| ==> us[i + 1].number > c;
  }

  // A number the leg does not carry is never found.
  lemma {:induction false} LookupAbsent(us: seq<Entry>, window: nat, k: nat, c: nat)
    requires window > 0 && k <= |us|
    requires forall i :: 0 <= i < |us| ==> us[i].number != c
    ensures Lookup(us[..k], window, c) == None
  {
    LatestIsRead(us[..k], window, Slot(c, window));
  }

  // ---------------------------------------------------------------------------
  // One pass
  // ---------------------------------------------------------------------------

  /** What the pass takes at one number. */
  datatype Taken = Data(marker: bool, payload: seq<Byte>, blue: bool) | Hole

  function Pick(ua: seq<Entry>, ub: seq<Entry>, window: nat, c: nat): Taken
    requires window > 0
  {
    match Lookup(ua[..Reach(ua, 0, c)], window, c)
    case Some(e) => Data(e.marker, e.payload, false)
    case None =>
      match Lookup(ub[..Reach(ub, 0, c)], window, c)
      case Some(e) => Data(e.marker, e.payload, true)
      case None => Hole
  }

  /** The first `n` slots of a pass that starts at number `first`. */
  function Slots(ua: seq<Entry>, ub: seq<Entry>, window: nat, first: nat, n: nat): (r: seq<Taken>)
    requires window > 0
    ensures |r| == n
  {
    if n == 0 then []
    else Slots(ua, ub, window, first, n - 1) + [Pick(ua, ub, window, first + n - 1)]
  }

  /** Nothing on this leg is numbered above `c`. */
  predicate Behind(us: seq<Entry>, c: nat) {
    forall i :: 0 <= i < |us| ==> us[i].number <= c
  }

  // A leg that has been read past `c`, or to its end, is behind exactly when it
  // ran out at or below `c`.
  lemma {:induction false} DrainedIsBehind(us: seq<Entry>, c: nat)
    ensures var k := Reach(us, 0, c);
            (k == |us| && (us == [] || us[|us| - 1].number <= c)) <==> Behind(us, c)
  {
    ReachStops(us, 0, c);
  }

  /** The end of the captures: a hole with nothing left to come on either leg. */
  predicate Exhausted(ua: seq<Entry>, ub: seq<Entry>, window: nat, c: nat)
    requires window > 0
  {
    Pick(ua, ub, window, c) == Hole && Behind(ua, c) && Behind(ub, c)
  }

  /** The highest number on a leg. */
  function Highest(us: seq<Entry>): (m: nat)
    ensures Behind(us, m)
  {
    if us == [] then 0
    else
      var m := Highest(us[..|us| - 1]);
      var n := us[|us| - 1].number;
      if n > m then n else m
  }

  function LastNumber(ua: seq<Entry>, ub: seq<Entry>): nat {
    if Highest(ua) > Highest(ub) then Highest(ua) else Highest(ub)
  }

  // Above every number there is nothing to find.
  lemma {:induction false} ExhaustedAbove(ua: seq<Entry>, ub: seq<Entry>, window: nat, c: nat)
    requires window > 0 && c > LastNumber(ua, ub)
    ensures Exhausted(ua, ub, window, c)
  {
    LookupAbsent(ua, window, Reach(ua, 0, c), c);
    LookupAbsent(ub, window, Reach(ub, 0, c), c);
  }

  // ---------------------------------------------------------------------------
  // Exactness of the merge
  // ---------------------------------------------------------------------------

  /** The datagram a leg carries under a number, whatever the window does. */
  function At(us: seq<Entry>, n: nat): Option<Entry> {
    if us == [] then None
    else if us[|us| - 1].number == n then Some(us[|us| - 1])
    else At(us[..|us| - 1], n)
  }

  /** A leg the window can follow: numbers climb, and no jump is a whole number of
    * windows. */
  ghost predicate Followable(us: seq<Entry>, window: nat)
    requires window > 0
  {
    && Climbs(us)
    && (forall i :: 0 < i < |us| ==> Slot(us[i].number, window) != Slot(us[i - 1].number, window))
  }

  /** Climbing by less than the window each time is enough. */
  lemma {:induction false} SmallJumpsAreFollowable(us: seq<Entry>, window: nat)
    requires window > 0 && Climbs(us)
    requires forall i :: 0 < i < |us| ==> us[i].number < us[i - 1].number + window
    ensures Followable(us, window)
  {
    forall i | 0 < i < |us| ensures Slot(us[i].number, window) != Slot(us[i - 1].number, window) {
      DifferentSlots(us[i - 1].number, us[i].number, window);
    }
  }

  lemma DifferentSlots(a: nat, b: nat, window: nat)
    requires a < b < a + window
    ensures Slot(a, window) != Slot(b, window)
  {
    var k := b / window - a / window;
    assert b - a == k * window + (b % window - a % window);
    assert k >= 1 ==> k * window >= window;
    assert k <= 0 ==> k * window <= 0;
  }

  /** A capture that carries climbing numbers, with jumps below the window and below
    * half the 16-bit space, is numbered truly and can be followed. */
  lemma {:induction false} CaptureIsFollowable(ms: seq<Media>, anchor: Option<nat>, ns: seq<nat>, window: nat)
    requires window > 0 && Carries(ms, ns) && (ns != [] ==> Anchors(anchor, ns[0]))
    requires forall i :: 0 < i < |ns| ==> ns[i] < ns[i - 1] + window
    ensures Followable(Numbered(ms, anchor), window)
    ensures forall i :: 0 <= i < |ms| ==>
              Numbered(ms, anchor)[i] == Entry(ns[i], ms[i].marker, ms[i].payload)
  {
    var us := Numbered(ms, anchor);
    NumberedRecovers(ms, anchor, ns);
    NumberedKeepsContents(ms, anchor);
    forall i, j | 0 <= i < j < |us| ensures us[i].number < us[j].number {
      ClimbsFar(ns, i, j);
    }
    SmallJumpsAreFollowable(us, window);
  }

  lemma {:induction false} ClimbsFar(ns: seq<nat>, i: nat, j: nat)
    requires i < j < |ns| && forall k :: 0 < k < |ns| ==> ns[k - 1] < ns[k]
    ensures ns[i] < ns[j]
  {
    if i + 1 < j { ClimbsFar(ns, i, j - 1); }
  }

  lemma {:induction false} NumberedKeepsContents(ms: seq<Media>, anchor: Option<nat>)
    ensures forall i :: 0 <= i < |ms| ==>
              var e := Numbered(ms, anchor)[i]; e.marker == ms[i].marker && e.payload == ms[i].payload
  {
    if ms != [] {
      var front := ms[..|ms| - 1];
      NumberedKeepsContents(front, anchor);
      assert forall i :: 0 <= i < |front| ==> Numbered(ms, anchor)[i] == Numbered(front, anchor)[i];
    }
  }

  lemma {:induction false} AtFinds(us: seq<Entry>, n: nat)
    ensures match At(us, n)
            case Some(e) => e in us && e.number == n
            case None => forall i :: 0 <= i < |us| ==> us[i].number != n
  {
    if us != [] { AtFinds(us[..|us| - 1], n); }
  }

  lemma {:induction false} LegExact(us: seq<Entry>, window: nat, c: nat)
    requires window > 0 && Followable(us, window)
    ensures Lookup(us[..Reach(us, 0, c)], window, c) == At(us, c)
  {
    AtFinds(us, c);
    if At(us, c).Some? {
      var i :| 0 <= i < |us| && us[i] == At(us, c).value;
      LookupExact(us, window, i);
    } else {
      LookupAbsent(us, window, Reach(us, 0, c), c);
    }
  }

  /** The merge: red's datagram if red has it, else blue's, else a hole. */
  lemma {:induction false} MergeExact(ua: seq<Entry>, ub: seq<Entry>, window: nat, c: nat)
    requires window > 0 && Followable(ua, window) && Followable(ub, window)
    ensures Pick(ua, ub, window, c) ==
            if At(ua, c).Some? then Data(At(ua, c).value.marker, At(ua, c).value.payload, false)
            else if At(ub, c).Some? then Data(At(ub, c).value.marker, At(ub, c).value.payload, true)
            else Hole
  {
    LegExact(ua, window, c);
    LegExact(ub, window, c);
  }

  /** On such legs the captures end just after the highest number, not before. */
  lemma {:induction false} ExhaustedExactlyAbove(ua: seq<Entry>, ub: seq<Entry>, window: nat, c: nat)
    requires window > 0 && Followable(ua, window) && Followable(ub, window) && ua != []
    ensures Exhausted(ua, ub, window, c) <==> c > LastNumber(ua, ub)
  {
    if c > LastNumber(ua, ub) {
      ExhaustedAbove(ua, ub, window, c);
    } else {
      HighestIsThere(ua);
      HighestIsThere(ub);
      AtFinds(ua, c);
      AtFinds(ub, c);
      MergeExact(ua, ub, window, c);
    }
  }

  lemma {:induction false} HighestIsThere(us: seq<Entry>)
    ensures us == [] ==> Highest(us) == 0
    ensures us != [] ==> exists i :: 0 <= i < |us| && us[i].number == Highest(us)
  {
    if |us| == 1 {
      assert us[0].number == Highest(us);
    } else if us != [] {
      var front := us[..|us| - 1];
      HighestIsThere(front);
      var i :| 0 <= i < |front| && front[i].number == Highest(front);
      assert us[i].number == Highest(front) && us[|us| - 1].number <= Highest(us);
    }
  }

  /** A blue leg whose first number would fall below zero starts at the top of the
    * unsigned space instead; it is then never consulted below that number. */
  lemma {:induction false} BlueBelowZeroIsLost(ms: seq<Media>, first: nat, d: nat, window: nat, c: nat)
    requires window > 0 && ms != [] && first < d <= 0x8000
    requires ms[0].seq16 < 0x10000 && (ms[0].seq16 - first + d) % 0x10000 == 0
    requires c < U64 + first - d
    ensures var ub := Numbered(ms, Some(first));
            ub[0].number == U64 + first - d && Lookup(ub[..Reach(ub, 0, c)], window, c) == None
  {
    var ub := Numbered(ms, Some(first));
    NumberedPrefix(ms, Some(first), 1);
    assert ms[..1] == [ms[0]] && ms[..1][..0] == [];
    AbsNearBelowZero(ms[0].seq16, d, first);
    assert ub[0] == ub[..1][0];
    assert Reach(ub, 0, c) == Reach(ub, 1, c) == 1;
    LatestIsRead(ub[..1], window, Slot(c, window));
  }

  /** Red begins at 0 and blue one datagram earlier: blue's 0 is not found, though blue has it. */
  lemma BlueOneEarlier(m: bool, p: seq<Byte>, window: nat)
    requires window > 0
    ensures var ub := Numbered([Media(1, 0xFFFF, m, p), Media(1, 0, m, p)], Some(0));
            At(ub, 0) == Some(Entry(0, m, p)) && Lookup(ub[..Reach(ub, 0, 0)], window, 0) == None
  {
    var one, ms := [Media(1, 0xFFFF, m, p)], [Media(1, 0xFFFF, m, p), Media(1, 0, m, p)];
    BlueBelowZeroIsLost(ms, 0, 1, window, 0);
    assert ms[..1] == one && one[..0] == [];
    assert Numbered(one, Some(0)) == [Entry(U64 - 1, m, p)];
    assert Numbered(ms, Some(0)) == [Entry(U64 - 1, m, p), Entry(0, m, p)];
  }

  /** With such a blue leg the pass finds no end of the captures below that number, though
    * past red's last number it takes nothing but holes. */
  lemma {:induction false} BlueBelowZeroNeverEnds(ua: seq<Entry>, ms: seq<Media>, first: nat, d: nat, window: nat, c: nat)
    requires window > 0 && ms != [] && first < d <= 0x8000
    requires ms[0].seq16 < 0x10000 && (ms[0].seq16 - first + d) % 0x10000 == 0
    requires c < U64 + first - d
    ensures !Exhausted(ua, Numbered(ms, Some(first)), window, c)
    ensures c > Highest(ua) ==> Pick(ua, Numbered(ms, Some(first)), window, c) == Hole
  {
    var ub := Numbered(ms, Some(first));
    BlueBelowZeroIsLost(ms, first, d, window, c);
    assert ub[0].number > c;
    if c > Highest(ua) {
      LookupAbsent(ua, window, Reach(ua, 0, c), c);
    }
  }
}
