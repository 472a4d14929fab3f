/** The streaming frame source: one reader per capture leg and the producer loop
  * that merges them, cuts frames, rejects bad ones and loops the captures. */
module PcapSource {
  import opened Wrappers
  import opened Merge
  import opened FrameCutter
  import Hbrmt
  import Gf2

  type Address = a: nat | a > 0 witness 1

  /** A captured packet: not UDP, or a UDP datagram with its destination. */
  datatype Record = Other | Udp(dst: Address, data: seq<Byte>)

  /** What the reader makes of a packet: a datagram with a full-size payload. */
  function Decode(r: Record): (m: Option<Media>)
    ensures m.Some? ==> m.value.dst > 0 && |m.value.payload| == Hbrmt.PAYLOAD_BYTES
  {
    match r
    case Other => None
    case Udp(dst, data) =>
      match Hbrmt.Parse(data)
      case None => None
      case Some(d) =>
        if |d.payload| != Hbrmt.PAYLOAD_BYTES then None
        else Some(Media(dst, d.rtp.sequence, d.rtp.marker, d.payload))
  }

  /** The usable datagrams of a capture, locked to `dst`, or to the first
    * destination seen while `dst` is zero. */
  function Accepted(file: seq<Record>, dst: nat): seq<Media> {
    if file == [] then []
    else
      match Decode(file[0])
      case None => Accepted(file[1..], dst)
      case Some(m) =>
        var locked := if dst == 0 then m.dst else dst;
        if m.dst != locked then Accepted(file[1..], locked) else [m] + Accepted(file[1..], locked)
  }

  /** The datagrams of a capture that can be used at all, wherever they were sent. */
  function Usable(file: seq<Record>): seq<Media> {
    if file == [] then []
    else (if Decode(file[0]).Some? then [Decode(file[0]).value] else []) + Usable(file[1..])
  }

  function SentTo(ms: seq<Media>, dst: nat): seq<Media> {
    if ms == [] then [] else (if ms[0].dst == dst then [ms[0]] else []) + SentTo(ms[1..], dst)
  }

  lemma {:induction false} AcceptedOf(file: seq<Record>, dst: nat)
    requires dst > 0
    ensures Accepted(file, dst) == SentTo(Usable(file), dst)
  {
    hide Decode;
    if file != [] {
      AcceptedOf(file[1..], dst);
      if Decode(file[0]).Some? {
        assert Usable(file)[1..] == Usable(file[1..]);
      } else {
        assert [] + Usable(file[1..]) == Usable(file[1..]);
        assert [] + SentTo(Usable(file[1..]), dst) == SentTo(Usable(file[1..]), dst);
      }
    }
  }

  /** A leg is what was sent where its first usable datagram was: all of it, in order. */
  lemma {:induction false} AcceptedAre(file: seq<Record>)
    ensures Accepted(file, 0) == if Usable(file) == [] then [] else SentTo(Usable(file), Usable(file)[0].dst)
  {
    hide Decode;
    if file != [] {
      var rest := Usable(file[1..]);
      if Decode(file[0]).Some? {
        AcceptedOf(file[1..], Decode(file[0]).value.dst);
        assert Usable(file)[1..] == rest;
      } else {
        AcceptedAre(file[1..]);
        assert [] + rest == rest;
      }
    }
  }

  /** The lock survives a rewind without changing what is accepted. */
  lemma {:induction false} LockIsStable(file: seq<Record>, dst: nat)
    requires Accepted(file, 0) != [] ==> dst == 0 || dst == Accepted(file, 0)[0].dst
    requires Accepted(file, 0) == [] ==> dst == 0
    ensures Accepted(file, dst) == Accepted(file, 0)
  {
    if file != [] && Decode(file[0]).None? {
      LockIsStable(file[1..], dst);
    }
  }

  lemma {:induction false} AcceptedStep(file: seq<Record>, pos: nat, dst: nat)
    requires pos < |file|
    ensures Accepted(file[pos..], dst) ==
            match Decode(file[pos])
            case None => Accepted(file[pos + 1..], dst)
            case Some(m) =>
              var locked := if dst == 0 then m.dst else dst;
              if m.dst != locked then Accepted(file[pos + 1..], locked)
              else [m] + Accepted(file[pos + 1..], locked)
  {
    assert file[pos..][1..] == file[pos + 1..];
  }

  lemma AcceptedEnd(dst: nat)
    ensures Accepted([], dst) == []
  {}

  // ---------------------------------------------------------------------------
  // One leg
  // ---------------------------------------------------------------------------

  class MergeLeg {
    const file: seq<Record>
    const window: Window
    var pos: nat
    const pool: array<seq<Byte>>
    const seqAt: array<nat>
    const valid: array<bool>
    const markers: array<bool>
    var dst: nat
    var lastSeq: nat
    var firstSeq: nat
    var haveLast: bool
    var haveFirst: bool
    var eof: bool

    // The number the first datagram of this pass was resolved against, and how
    // many datagrams have been read in this pass.
    ghost var anchor: Option<nat>
    ghost var taken: nat

    ghost const Repr: set<object>

    ghost function Medias(): seq<Media> { Accepted(file, 0) }

    /** The leg's datagrams with the numbers they get in this pass. */
    ghost function Us(): seq<Entry>
      reads this
    {
      Numbered(Medias(), anchor)
    }

    ghost predicate Valid()
      reads this, Repr
    {
      Shape() && Positioned() && Marked()
    }

    ghost predicate Shape() {
      && Repr == {this, pool, seqAt, valid, markers}
      && pool.Length == seqAt.Length == valid.Length == markers.Length == window
      && valid != markers
    }

    /** Where the file has been read to, and what is still to come. */
    ghost predicate Positioned()
      reads this
    {
      && pos <= |file| && taken <= |Medias()|
      && Accepted(file[pos..], dst) == Medias()[taken..]
      && (dst == 0 ==> taken == 0)
      && (dst != 0 ==> Medias() != [] && dst == Medias()[0].dst)
      && (eof ==> taken == |Medias()|)
    }

    /** What the fields and the window remember of what has been read. */
    ghost predicate Marked()
      reads this, Repr
      requires Shape()
    {
      && taken <= |Medias()|
      && (haveLast <==> taken > 0)
      && (haveLast ==> lastSeq == Us()[taken - 1].number)
      && (!haveFirst ==> taken == 0)
      && WindowHolds()
    }

    /** The window's slots hold the latest datagram read into each. */
    ghost predicate WindowHolds()
      reads this, Repr
      requires Shape() && taken <= |Medias()|
    {
      SlotsHold(Us()[..taken], window, valid[..], seqAt[..], markers[..], pool[..])
    }

    constructor (file: seq<Record>, window: Window)
      ensures Valid() && fresh(Repr)
      ensures this.file == file && this.window == window
      ensures taken == 0 && !haveFirst && !eof
    {
      this.file, this.window := file, window;
      pool := new seq<Byte>[window](_ => []);
      seqAt := new nat[window](_ => 0);
      valid := new bool[window](_ => false);
      markers := new bool[window](_ => false);
      pos, dst, lastSeq, firstSeq := 0, 0, 0, 0;
      haveLast, haveFirst, eof := false, false, false;
      anchor, taken := None, 0;
      Repr := {this, pool, seqAt, valid, markers};
      new;
      assert Us()[..0] == [];
      NothingRead(window, valid[..], seqAt[..], markers[..], pool[..]);
    }

    /** Start over; the lock, the first number and the stale slots stay. */
    method Rewind()
      requires Valid()
      modifies Repr
      ensures Valid()
      ensures taken == 0 && !eof && anchor == None
      ensures haveFirst == old(haveFirst) && firstSeq == old(firstSeq) && dst == old(dst)
      ensures seqAt[..] == old(seqAt[..]) && markers[..] == old(markers[..]) && pool[..] == old(pool[..])
    {
      hide Numbered, SlotsHold, Accepted;
      pos := 0;
      for i := 0 to valid.Length
        invariant forall j :: 0 <= j < i ==> !valid[j]
        invariant markers[..] == old(markers[..])
        modifies valid
      {
        valid[i] := false;
      }
      eof, haveLast, lastSeq := false, false, 0;
      anchor, taken := None, 0;
      LockIsStable(file, dst);
      assert file[0..] == file;
      assert Us()[..0] == [];
      NothingRead(window, valid[..], seqAt[..], markers[..], pool[..]);
    }

    /** Read one usable datagram, resolving its number against `near`. */
    method ReadOne(near: Option<nat>) returns (ok: bool)
      requires Valid() && !eof
      requires near == if taken == 0 then anchor else Some(lastSeq)
      modifies Repr
      ensures Valid() && anchor == old(anchor)
      ensures ok <==> old(taken) < |Medias()|
      ensures ok <==> !eof
      ensures taken == old(taken) + (if ok then 1 else 0)
      ensures haveFirst == (old(haveFirst) || ok)
      ensures firstSeq == if old(haveFirst) || !ok then old(firstSeq) else Us()[0].number
    {
      hide Accepted, Decode, Numbered, NumberOf, SlotsHold;
      while true
        invariant pos <= |file| && taken == old(taken) && anchor == old(anchor)
        invariant Valid() && !eof
        invariant haveFirst == old(haveFirst) && firstSeq == old(firstSeq)
        invariant near == if taken == 0 then anchor else Some(lastSeq)
        decreases |file| - pos
      {
        if pos == |file| {
          assert file[pos..] == [];
          AcceptedEnd(dst);
          eof := true;
          return false;
        }
        var r := file[pos];
        AcceptedStep(file, pos, dst);
        pos := pos + 1;
        match Decode(r) {
          case None =>
          case Some(m) =>
            ghost var rest := Medias()[taken..];
            if dst == 0 {
              dst := m.dst;
              assert rest[0] == m;
            }
            if m.dst == dst {
              assert rest == [m] + Accepted(file[pos..], dst);
              assert Medias()[taken] == rest[0] && Medias()[taken + 1..] == rest[1..];
              assert rest[1..] == Accepted(file[pos..], dst);
              Accept(m, near);
              return true;
            }
        }
      }
    }

    method StoreSlot(e: Entry, ghost us: seq<Entry>, ghost k: nat)
      requires Shape() && k < |us| && us[k] == e
      requires SlotsHold(us[..k], window, valid[..], seqAt[..], markers[..], pool[..])
      modifies pool, seqAt, valid, markers
      ensures SlotsHold(us[..k + 1], window, valid[..], seqAt[..], markers[..], pool[..])
    {
      hide Slot, SlotsHold;
      var i := Slot(e.number, window);
      ghost var v, a, f, p := valid[..], seqAt[..], markers[..], pool[..];
      pool[i] := e.payload;
      seqAt[i], valid[i], markers[i] := e.number, true, e.marker;
      SlotsUpdate(us, k, window, v, a, f, p);
      assert valid[..] == v[i := true] && seqAt[..] == a[i := e.number];
      assert markers[..] == f[i := e.marker] && pool[..] == p[i := e.payload];
    }

    // Number a datagram, write its slot and note it as the last one read.
    method Accept(m: Media, near: Option<nat>)
      requires Shape() && Marked() && taken < |Medias()| && Medias()[taken] == m
      requires near == if taken == 0 then anchor else Some(lastSeq)
      modifies this`haveFirst, this`firstSeq, this`lastSeq, this`haveLast, this`taken
      modifies pool, seqAt, valid, markers
      ensures Marked() && taken == old(taken) + 1 && haveFirst
      ensures firstSeq == if old(haveFirst) then old(firstSeq) else Us()[0].number
    {
      NumberNext(Medias(), anchor, taken);
      hide Numbered, NumberOf, Accepted, Slot, SlotsHold;
      ghost var us := Us();
      var s := NumberOf(m.seq16, near);
      if !haveFirst { haveFirst, firstSeq := true, s; }
      StoreSlot(Entry(s, m.marker, m.payload), us, taken);
      lastSeq, haveLast := s, true;
      taken := taken + 1;
    }

    /** Opened or rewound: nothing read yet in this pass. */
    ghost predicate Fresh()
      reads this, Repr
    {
      Valid() && taken == 0 && !eof
    }

    /** Numbered like `us` and read just past `c`, or to the end. */
    ghost predicate Ahead(us: seq<Entry>, c: nat)
      reads this, Repr
    {
      && Valid() && Us() == us && taken <= |us| && taken == Reach(us, 0, c)
      && (taken == |us| && (taken > 0 ==> lastSeq <= c) ==> eof)
    }

    /** Read forward until this leg is past `cursor` or at its end.  The seed only
      * matters for the first datagram of a pass. */
    method Fill(cursor: nat, seed: Option<nat>, ghost us: seq<Entry>, ghost c: nat)
      requires (Fresh() && us == Numbered(Medias(), seed)) || (Ahead(us, c) && c <= cursor)
      modifies Repr
      ensures Ahead(us, cursor)
      ensures haveFirst == (old(haveFirst) || us != [])
      ensures firstSeq == if old(haveFirst) || us == [] then old(firstSeq) else us[0].number
    {
      hide Accepted, Numbered, SlotsHold, Reach;
      ReachStart(us, c, cursor);
      if taken == 0 && !eof {
        assert Us()[..0] == [];
        anchor := seed;
        assert Us()[..0] == [];
      }
      while !eof
        invariant Valid() && Us() == us && (taken == 0 && !eof ==> anchor == seed)
        invariant taken <= |us| && Reach(us, taken, cursor) == Reach(us, 0, cursor)
        invariant haveFirst == (old(haveFirst) || taken > 0)
        invariant firstSeq == if old(haveFirst) || taken == 0 then old(firstSeq) else us[0].number
        decreases !eof, |us| - taken
      {
        ReachStep(us, taken, cursor);
        if haveLast && lastSeq > cursor { return; }
        ghost var k := taken + 1;
        assert k <= |us| ==> Reach(us, k, cursor) == Reach(us, 0, cursor);
        var ok := ReadOne(if haveLast then Some(lastSeq) else seed);
        if !ok { return; }
      }
      ReachStep(us, taken, cursor);
    }

    /** Nothing more can arrive at or above `cursor`. */
    predicate Drained(cursor: nat)
      reads this
    {
      eof && (!haveLast || lastSeq <= cursor)
    }

    method Find(n: nat) returns (r: Option<Entry>)
      requires Valid()
      ensures r == Lookup(Us()[..taken], window, n)
    {
      hide Slot, Latest, Numbered, Accepted;
      var i := Slot(n, window);
      if !valid[i] || seqAt[i] != n { return None; }
      return Some(Entry(seqAt[i], markers[i], pool[i]));
    }
  }

  /** Four slot arrays that hold the latest entry read into each slot. */
  ghost predicate SlotsHold(read: seq<Entry>, window: Window, v: seq<bool>, a: seq<nat>, f: seq<bool>, p: seq<seq<Byte>>) {
    && |v| == |a| == |f| == |p| == window
    && (forall i :: 0 <= i < window ==>
          Latest(read, window, i) == if v[i] then Some(Entry(a[i], f[i], p[i])) else None)
  }

  // Writing the next entry into its slot.
  lemma {:induction false} SlotsUpdate(us: seq<Entry>, k: nat, window: Window,
                                       v: seq<bool>, a: seq<nat>, f: seq<bool>, p: seq<seq<Byte>>)
    requires k < |us| && SlotsHold(us[..k], window, v, a, f, p)
    ensures var e, i := us[k], Slot(us[k].number, window);
            SlotsHold(us[..k + 1], window, v[i := true], a[i := e.number], f[i := e.marker], p[i := e.payload])
  {
    hide Slot;
    var upTo := us[..k + 1];
    assert upTo[..|upTo| - 1] == us[..k] && upTo[|upTo| - 1] == us[k];
  }

  lemma {:induction false} NothingRead(window: Window, v: seq<bool>, a: seq<nat>, f: seq<bool>, p: seq<seq<Byte>>)
    requires |v| == |a| == |f| == |p| == window
    requires forall i :: 0 <= i < window ==> !v[i]
    ensures SlotsHold([], window, v, a, f, p)
  {}

  // Reading on from where an earlier cursor left off is as good as from the start.
  lemma {:induction false} ReachStart(us: seq<Entry>, c: nat, cursor: nat)
    ensures c <= cursor ==> Reach(us, Reach(us, 0, c), cursor) == Reach(us, 0, cursor)
    ensures Reach(us, 0, c) == 0 ==> us == []
  {
    if c <= cursor { ReachAgain(us, 0, c, cursor); }
  }

  // One unfolding of how far a leg is read.
  lemma {:induction false} ReachStep(us: seq<Entry>, k: nat, cursor: nat)
    requires k <= |us|
    ensures k == |us| || (k > 0 && us[k - 1].number > cursor) ==> Reach(us, k, cursor) == k
    ensures k < |us| && !(k > 0 && us[k - 1].number > cursor) ==> Reach(us, k, cursor) == Reach(us, k + 1, cursor)
  {}

  // The number the next datagram gets.
  lemma {:induction false} NumberNext(ms: seq<Media>, anchor: Option<nat>, k: nat)
    requires k < |ms|
    ensures var us := Numbered(ms, anchor);
            us[k] == Entry(NumberOf(ms[k].seq16, if k == 0 then anchor else Some(us[k - 1].number)),
                           ms[k].marker, ms[k].payload)
  {
    NumberedPrefix(ms, anchor, k + 1);
    NumberedPrefix(ms, anchor, k);
    var us := Numbered(ms, anchor);
    assert ms[..k + 1][..k] == ms[..k];
    assert us[k] == us[..k + 1][k];
    if k > 0 { assert us[k - 1] == us[..k][k - 1]; }
  }

  // ---------------------------------------------------------------------------
  // The producer loop
  // ---------------------------------------------------------------------------

  /** The pass that a pair of captures gives, every time it is run. */
  function JobOf(red: seq<Record>, blue: seq<Record>, window: Window, rules: Rules): Job {
    var ua := Numbered(Accepted(red, 0), None);
    var first := if ua == [] then 0 else ua[0].number;
    Job(ua, Numbered(Accepted(blue, 0), Some(first)), window, first, rules)
  }

  function Times(frames: seq<seq<Byte>>, k: nat): seq<seq<Byte>> {
    if k == 0 then [] else Times(frames, k - 1) + frames
  }

  function TallyTimes(t: Tally, k: nat): Tally {
    if k == 0 then Tally(0, 0, 0, 0, 0, 0, 0) else TallyTimes(t, k - 1).Plus(t)
  }

  /** What the producer keeps while it cuts frames: the collection in progress, the
    * frames handed on, the counters, and how often the captures were restarted. */
  datatype Books = Books(collecting: bool, cur: seq<Byte>, bad: nat, pushed: seq<seq<Byte>>,
                         tally: Tally, abandoned: nat, restarts: nat)

  /** The books after `n` numbers of the pass under way: everything in them is what
    * the completed passes, all alike, and the slots seen so far make it. */
  ghost predicate Booked(job: Job, n: nat, k: Books) {
    var v := job.Visited(n);
    && k.collecting == Collected(v).Some?
    && k.cur == (if k.collecting then Collected(v).value else [])
    && k.bad == Bad(job.rules, v)
    && k.pushed == Times(job.PassFrames(), k.restarts) + Frames(job.rules, v)
    && k.tally == TallyTimes(TallyOf(job.rules, job.Visited(job.Length())), k.restarts).Plus(TallyOf(job.rules, v))
    && Balanced(k)
  }

  /** Every collection begun was produced, rejected, abandoned by a restart, or is
    * the one in progress. */
  predicate Balanced(k: Books) {
    && k.tally.begun == k.tally.produced + k.tally.raster + k.tally.short + k.tally.holed
                        + k.abandoned + One(k.collecting)
    && k.tally.produced == |k.pushed|
    && (!k.collecting ==> k.cur == [])
  }

  ghost predicate NotOver(job: Job, n: nat) {
    (forall m :: 0 <= m < n ==> !job.Ends(m)) && !job.EndsEarly(n)
  }

  lemma BookedAtStart(job: Job)
    ensures Booked(job, 0, Books(false, [], 0, [], Tally(0, 0, 0, 0, 0, 0, 0), 0, 0)) && NotOver(job, 0)
  {
    assert job.Visited(0) == [] && !job.EndsEarly(0);
    hide Job.Visited, Job.Length, Job.PassFrames, Job.Ends, Job.EndsEarly;
  }

  // One slot more, unfolded once.
  lemma SlotFacts(job: Job, n: nat, t: Taken)
    requires t == Pick(job.ua, job.ub, job.window, job.first + n)
    ensures var v, w := job.Visited(n), job.Visited(n + 1);
            var verdict := VerdictOf(job.rules, v, t);
            && Collected(w) == (if t.Hole? then None else if t.marker then Some([])
                                else match Collected(v) case None => None case Some(b) => Some(b + t.payload))
            && Frames(job.rules, w) == Frames(job.rules, v) + (if verdict.Produced? then [verdict.frame] else [])
            && Bad(job.rules, w) == (if verdict.Nothing? then Bad(job.rules, v)
                                     else if verdict.Produced? then 0 else Bad(job.rules, v) + 1)
            && TallyOf(job.rules, w) == TallyOf(job.rules, v).Plus(TallyAt(verdict, t))
            && (job.EndsEarly(n + 1) <==>
                  (t.Hole? || t.marker) && Bad(job.rules, w) >= job.rules.tolerance)
  {
    var v, w := job.Visited(n), job.Visited(n + 1);
    assert w[..|w| - 1] == v && w[|w| - 1] == t;
  }

  /** The books after a slot that gives `verdict`. */
  function NextBooks(k: Books, t: Taken, verdict: Verdict): Books {
    Books(t.Data? && (t.marker || k.collecting),
          if t.Data? && !t.marker && k.collecting then k.cur + t.payload else [],
          if verdict.Nothing? then k.bad else if verdict.Produced? then 0 else k.bad + 1,
          k.pushed + if verdict.Produced? then [verdict.frame] else [],
          k.tally.Plus(TallyAt(verdict, t)), k.abandoned, k.restarts)
  }

  lemma BookedNext(job: Job, n: nat, k: Books, t: Taken)
    requires Booked(job, n, k) && t == Pick(job.ua, job.ub, job.window, job.first + n)
    ensures Booked(job, n + 1, NextBooks(k, t, VerdictOf(job.rules, job.Visited(n), t)))
  {
    hide Frames, Bad, TallyOf, Collected, Job.Visited, Job.PassFrames, Job.Length, Times, TallyTimes, Pick, VerdictOf;
    SlotFacts(job, n, t);
    VerdictFromBooks(job, n, k, t);
  }

  /** The verdict on a slot as the producer reaches it, from its books. */
  function VerdictOn(rules: Rules, k: Books, t: Taken): Verdict {
    if !k.collecting then Nothing
    else if t.Hole? then Holed
    else if !t.marker then Nothing
    else
      var whole := k.cur + t.payload;
      if |whole| < rules.frameBytes then TooShort
      else if rules.rasterOk(whole[..rules.frameBytes]) then Produced(whole[..rules.frameBytes])
      else BadRaster
  }

  lemma VerdictFromBooks(job: Job, n: nat, k: Books, t: Taken)
    requires Booked(job, n, k)
    ensures VerdictOf(job.rules, job.Visited(n), t) == VerdictOn(job.rules, k, t)
  {
    hide Frames, Bad, TallyOf, Collected, Job.Visited, Job.PassFrames, Job.Length, Times, TallyTimes;
  }

  // Where the pass ends, the books close and the next pass starts from them.
  lemma BookedRestart(job: Job, n: nat, k: Books)
    requires Booked(job, n, k) && (job.EndsEarly(n) || job.EndsFully(n))
    requires forall m :: 0 <= m < n ==> !job.Ends(m)
    ensures Booked(job, 0, k.(collecting := false, cur := [], bad := 0,
                              abandoned := k.abandoned + One(k.collecting), restarts := k.restarts + 1))
    ensures NotOver(job, 0) && n == job.Length()
  {
    LengthIs(job, n);
    hide *;
    BookedAtStart(job);
    BooksClose(job, k);
  }

  lemma BooksClose(job: Job, k: Books)
    requires Booked(job, job.Length(), k)
    ensures Booked(job, 0, k.(collecting := false, cur := [], bad := 0,
                              abandoned := k.abandoned + One(k.collecting), restarts := k.restarts + 1))
  {
    FreshStart(job);
    hide Job.Visited, Job.Length, Job.Ends, Frames, Collected, Bad, TallyOf, Times, TallyTimes;
    TimesMore(job.PassFrames(), k.restarts);
    TallyMore(TallyOf(job.rules, job.Visited(job.Length())), k.restarts);
  }

  lemma FreshStart(job: Job)
    ensures var v := job.Visited(0);
            Collected(v) == None && Bad(job.rules, v) == 0 && Frames(job.rules, v) == []
            && TallyOf(job.rules, v) == Tally(0, 0, 0, 0, 0, 0, 0)
  {}

  lemma {:induction false} TimesMore(frames: seq<seq<Byte>>, k: nat)
    ensures Times(frames, k + 1) + [] == Times(frames, k) + frames
  {}

  lemma TallyMore(t: Tally, k: nat)
    ensures TallyTimes(t, k + 1).Plus(Tally(0, 0, 0, 0, 0, 0, 0)) == TallyTimes(t, k).Plus(t)
  {}

  // ---------------------------------------------------------------------------
  // The loop
  // ---------------------------------------------------------------------------

  /** How a run of the loop comes out. */
  datatype Outcome = Stopped | OutOfTurns | NoDatagrams | NoFrames

  /** The two legs of a job, apart from how far they have been read. */
  ghost predicate Legs(a: MergeLeg, b: MergeLeg, haveB: bool, job: Job)
    reads a, b
  {
    && a.Repr !! b.Repr && a in a.Repr && b in b.Repr
    && a.window == b.window == job.window && (!haveB ==> b.file == [])
    && job == JobOf(a.file, b.file, job.window, job.rules)
    && (a.haveFirst ==> job.ua != [] && a.firstSeq == job.first)
  }

  /** Where the legs stand at the head of the loop. */
  ghost predicate Standing(a: MergeLeg, b: MergeLeg, haveB: bool, job: Job, anchored: bool, c: nat)
    reads a, a.Repr, b, b.Repr
  {
    if anchored then a.haveFirst && a.Ahead(job.ua, c) && (if haveB then b.Ahead(job.ub, c) else b.Fresh())
    else a.Fresh() && b.Fresh()
  }

  lemma NoBlue(b: MergeLeg, job: Job)
    requires b.file == [] && job.ub == Numbered(b.Medias(), Some(job.first))
    ensures job.ub == []
  {}

  /** Keep both legs just ahead of the cursor; the first time round, set it. */
  method Position(a: MergeLeg, b: MergeLeg, haveB: bool, ghost job: Job, anchored: bool, ghost c: nat, cursor: nat)
    returns (ok: bool, at: nat)
    requires Legs(a, b, haveB, job) && Standing(a, b, haveB, job, anchored, c) && c <= cursor
    requires !anchored ==> cursor == 0
    modifies a.Repr, b.Repr
    ensures ok <==> job.ua != []
    ensures ok ==> Legs(a, b, haveB, job) && Standing(a, b, haveB, job, true, at)
    ensures ok ==> at == if anchored then cursor else job.first
  {
    hide Numbered, Reach, MergeLeg.Valid, Accepted;
    at := cursor;
    a.Fill(cursor, if anchored then Some(0) else None, job.ua, c);
    if !anchored {
      if !a.haveFirst { return false, at; }
      at := a.firstSeq;
      a.Fill(at, Some(0), job.ua, cursor);
    }
    if haveB {
      b.Fill(at, Some(at), job.ub, c);
    }
    return true, at;
  }

  /** Red's datagram at the cursor, else blue's, else a hole. */
  method Take(a: MergeLeg, b: MergeLeg, haveB: bool, ghost job: Job, cursor: nat) returns (t: Taken, over: bool)
    requires Legs(a, b, haveB, job) && Standing(a, b, haveB, job, true, cursor)
    ensures t == Pick(job.ua, job.ub, job.window, cursor)
    ensures over <==> Behind(job.ua, cursor) && Behind(job.ub, cursor)
  {
    hide Reach, Numbered, Accepted;
    if !haveB { NoBlue(b, job); }
    DrainedIsBehind(job.ua, cursor);
    DrainedIsBehind(job.ub, cursor);
    over := a.Drained(cursor) && (!haveB || b.Drained(cursor));
    t := Hole;
    var e := a.Find(cursor);
    if e.Some? {
      t := Data(e.value.marker, e.value.payload, false);
    } else if haveB {
      e := b.Find(cursor);
      if e.Some? { t := Data(e.value.marker, e.value.payload, true); }
    }
  }

  /** What the producer does with one slot.  `stopping` is what a push finds when it
    * polls the stop flag; `stopped` says the loop is left there. */
  method Digest(rules: Rules, k0: Books, t: Taken, stopping: bool) returns (k: Books, stopped: bool)
    requires !k0.collecting ==> k0.cur == []
    ensures stopped ==> stopping && k == k0
    ensures !stopped ==> k == NextBooks(k0, t, VerdictOn(rules, k0, t))
  {
    k, stopped := k0, false;
    assert k0.pushed + [] == k0.pushed;
    var tally := k.tally;
    if t.Hole? {
      tally := tally.(holes := tally.holes + 1);
      if k.collecting {
        tally := tally.(holed := tally.holed + 1);
        k := k.(bad := k.bad + 1);
      }
      k := k.(collecting := false, cur := [], tally := tally);
      return;
    }
    if t.blue { tally := tally.(blue := tally.blue + 1); }
    if k.collecting { k := k.(cur := k.cur + t.payload); }
    if !t.marker {
      k := k.(tally := tally);
      return;
    }
    if k.collecting {
      if |k.cur| >= rules.frameBytes {
        var frame := k.cur[..rules.frameBytes];
        if rules.rasterOk(frame) {
          if stopping { return k0, true; }
          k := k.(pushed := k.pushed + [frame], bad := 0);
          tally := tally.(produced := tally.produced + 1);
        } else {
          tally := tally.(raster := tally.raster + 1);
          k := k.(bad := k.bad + 1);
        }
      } else {
        tally := tally.(short := tally.short + 1);
        k := k.(bad := k.bad + 1);
      }
    }
    k := k.(cur := [], collecting := true, tally := tally.(begun := tally.begun + 1));
  }

  /** The producer thread, for at most `budget` turns of its loop; the stop flag may
    * be found set at any turn and at any push.
    *
    * Whenever it is left, the frames pushed are the whole pass's frames repeated
    * once per restart, followed by the frames of the `n` numbers visited since.
    *
    * A run that is not stopped, and has turns for a whole pass, gives up exactly if a
    * pass runs to the end of the captures and yields nothing. */
  method Run(a: MergeLeg, b: MergeLeg, haveB: bool, rules: Rules, budget: nat, ghost job: Job)
    returns (out: Outcome, k: Books, loops: nat, earlyLoops: nat, ghost n: nat)
    requires Legs(a, b, haveB, job) && a.Fresh() && b.Fresh() && job.rules == rules
    modifies a.Repr, b.Repr
    ensures Booked(job, n, k) && NotOver(job, n) && k.restarts == loops + earlyLoops
    ensures out == NoDatagrams ==> job.ua == [] && n == 0 && k.restarts == 0
    ensures out == NoFrames ==> k.pushed == []
    ensures loops > 0 ==> job.PassFrames() != [] && !job.EndsEarly(job.Length())
    ensures earlyLoops > 0 ==> job.EndsEarly(job.Length())
    ensures out != Stopped && budget > 0 ==> (out == NoDatagrams <==> job.ua == [])
    ensures out == NoFrames ==> job.ua != [] && job.PassFrames() == [] && !job.EndsEarly(job.Length())
    ensures out != Stopped && budget > job.Length() ==>
              (out == NoFrames <==> job.ua != [] && job.PassFrames() == [] && !job.EndsEarly(job.Length()))
  {
    hide Booked, Job.Ends, Job.EndsEarly, Job.EndsFully, Job.Length, Job.PassFrames;
    hide Numbered, Accepted, MergeLeg.Valid, JobOf, Pick, VerdictOn, NextBooks, Behind;
    var cursor, anchored, left := 0, false, budget;
    k, loops, earlyLoops := Books(false, [], 0, [], Tally(0, 0, 0, 0, 0, 0, 0), 0, 0), 0, 0;
    n := 0;
    ghost var c := 0;
    BookedAtStart(job);
    while left > 0
      invariant Legs(a, b, haveB, job) && Standing(a, b, haveB, job, anchored, c) && c <= cursor
      invariant cursor == if anchored then job.first + n else 0
      invariant !anchored ==> n == 0
      invariant anchored || k.restarts > 0 ==> job.ua != []
      invariant Booked(job, n, k) && NotOver(job, n) && k.restarts == loops + earlyLoops
      invariant loops > 0 ==> job.PassFrames() != [] && !job.EndsEarly(job.Length())
      invariant k.restarts == 0 ==> n == budget - left
      invariant left < budget ==> job.ua != []
      invariant earlyLoops > 0 ==> job.EndsEarly(job.Length())
    {
      var stopping: bool := *;
      if stopping { return Stopped, k, loops, earlyLoops, n; }
      left := left - 1;

      var ok, at := Position(a, b, haveB, job, anchored, c, cursor);
      if !ok { return NoDatagrams, k, loops, earlyLoops, n; }
      cursor, anchored, c := at, true, at;
      var t, over := Take(a, b, haveB, job, cursor);
      FullEnd(job, n, t);
      if t.Hole? && over {
        BookedRestart(job, n, k);
        if k.tally.produced == 0 {
          NothingCameOut(job, k);
          return NoFrames, k, loops, earlyLoops, n;
        }
        SomethingCameOut(job, k);
        RestartLegs(a, b, haveB, job);
        k := k.(collecting := false, cur := [], bad := 0, abandoned := k.abandoned + One(k.collecting),
                restarts := k.restarts + 1);
        loops, cursor, anchored, c, n := loops + 1, 0, false, 0, 0;
        continue;
      }
      var pollAtPush: bool := *;
      BooksBalance(job, n, k);
      var k', stopped := Digest(rules, k, t, pollAtPush);
      if stopped { return Stopped, k, loops, earlyLoops, n; }
      SlotGoesOn(job, n, k, t, k');
      k, cursor, n := k', cursor + 1, n + 1;
      if (t.Hole? || t.marker) && k.bad >= rules.tolerance {
        BookedRestart(job, n, k);
        RestartLegs(a, b, haveB, job);
        k := k.(collecting := false, cur := [], bad := 0, abandoned := k.abandoned + One(k.collecting),
                restarts := k.restarts + 1);
        earlyLoops, cursor, anchored, c, n := earlyLoops + 1, 0, false, 0, 0;
      }
    }
    NotPastEnd(job, n);
    out := OutOfTurns;
  }

  /** Both readers back to the start; their locks, first numbers and stale slots stay. */
  method RestartLegs(a: MergeLeg, b: MergeLeg, haveB: bool, ghost job: Job)
    requires Legs(a, b, haveB, job) && a.Valid() && (if haveB then b.Valid() else b.Fresh())
    modifies a.Repr, b.Repr
    ensures Legs(a, b, haveB, job) && a.Fresh() && b.Fresh()
  {
    hide Numbered, Accepted, JobOf, MergeLeg.Valid;
    a.Rewind();
    if haveB { b.Rewind(); }
  }

  // Where a hole meets the end of both legs, the pass ends, and only there.
  lemma FullEnd(job: Job, n: nat, t: Taken)
    requires t == Pick(job.ua, job.ub, job.window, job.first + n)
    ensures job.EndsFully(n) <==> t.Hole? && Behind(job.ua, job.first + n) && Behind(job.ub, job.first + n)
  {}

  // A slot that does not end the pass, and what the tolerance makes of it.
  lemma SlotGoesOn(job: Job, n: nat, k: Books, t: Taken, k': Books)
    requires Booked(job, n, k) && NotOver(job, n) && !job.EndsFully(n)
    requires t == Pick(job.ua, job.ub, job.window, job.first + n)
    requires k' == NextBooks(k, t, VerdictOn(job.rules, k, t))
    ensures Booked(job, n + 1, k') && k'.restarts == k.restarts
    ensures forall m :: 0 <= m < n + 1 ==> !job.Ends(m)
    ensures job.EndsEarly(n + 1) <==> (t.Hole? || t.marker) && k'.bad >= job.rules.tolerance
  {
    VerdictFromBooks(job, n, k, t);
    BookedNext(job, n, k, t);
    SlotFacts(job, n, t);
    assert !job.Ends(n);
    assert k'.bad == Bad(job.rules, job.Visited(n + 1));
  }

  /** In every reachable state of the producer the books balance. */
  lemma BooksBalance(job: Job, n: nat, k: Books)
    requires Booked(job, n, k)
    ensures Balanced(k)
  {}

  lemma NothingCameOut(job: Job, k: Books)
    requires Booked(job, job.Length(), k) && k.tally.produced == 0
    ensures job.PassFrames() == [] && k.pushed == []
  {
    hide Frames, Collected, Bad, TallyOf, Job.Length, Job.Visited, Times, TallyTimes;
    assert |k.pushed| == 0;
  }

  // A pass that ends with something produced, in it or before it, is one that yields frames.
  lemma SomethingCameOut(job: Job, k: Books)
    requires Booked(job, job.Length(), k) && k.tally.produced != 0
    ensures job.PassFrames() != []
  {
    hide Frames, Collected, Bad, TallyOf, Job.Length, Job.Visited, Times, TallyTimes;
    TimesAt(job.PassFrames(), k.restarts, 0);
    assert |k.pushed| > 0;
  }

  // ---------------------------------------------------------------------------
  // Whole runs
  // ---------------------------------------------------------------------------

  lemma {:induction false} TimesAt(frames: seq<seq<Byte>>, k: nat, i: nat)
    ensures |Times(frames, k)| == k * |frames|
    ensures i < k * |frames| ==> |frames| > 0 && Times(frames, k)[i] == frames[i % |frames|]
  {
    if k > 0 {
      var done := (k - 1) * |frames|;
      TimesAt(frames, k - 1, i);
      assert k * |frames| == done + |frames|;
      if done <= i < done + |frames| {
        Gf2.DivModUnique(i, k - 1, i - done, |frames|);
      }
    }
  }

  /** Loop determinism: whatever was left over from earlier passes, the frames pushed
    * over a whole run are the frames of one pass, over and over in the same order. */
  lemma LoopedFrames(job: Job, n: nat, k: Books, i: nat)
    requires Booked(job, n, k) && NotOver(job, n) && i < |k.pushed|
    ensures var f := job.PassFrames(); |f| > 0 && k.pushed[i] == f[i % |f|]
  {
    NotPastEnd(job, n);
    PartialPass(job, n);
    var f, part := job.PassFrames(), Frames(job.rules, job.Visited(n));
    hide Frames, Collected, Bad, TallyOf, Job.Visited, Job.PassFrames, Times, TallyTimes;
    TimesAt(f, k.restarts, i);
    var done := k.restarts * |f|;
    if i >= done {
      assert k.pushed[i] == part[i - done] == f[i - done];
      Gf2.DivModUnique(i, k.restarts, i - done, |f|);
    }
  }

  lemma NotPastEnd(job: Job, n: nat)
    requires NotOver(job, n)
    ensures n <= job.Length()
  {
    hide Job.Ends, Job.EndsEarly, Job.Length;
    LengthEnds(job);
  }

  /** A capture of two marker datagrams, no frame long enough, one failure tolerated: each pass
    * ends early with nothing to show, so the run never gives up and never hands on a frame. */
  lemma FailingForEver(p: seq<Byte>, q: seq<Byte>, rules: Rules)
    requires rules.tolerance == 1 && |q| < rules.frameBytes
    ensures var job := Job([Entry(0, true, p), Entry(1, true, q)], [], 8192, 0, rules);
            && job.Length() == 2 && job.EndsEarly(job.Length()) && job.PassFrames() == []
            && forall n: nat, k: Books :: Booked(job, n, k) && NotOver(job, n) ==> k.pushed == []
  {
    var job := Job([Entry(0, true, p), Entry(1, true, q)], [], 8192, 0, rules);
    FailingSlots(p, q, rules);
    FailingVerdicts(p, q, rules);
    hide Frames, Bad, Job.Visited, Job.PassFrames, Job.Length, Booked, NotOver, Exhausted;
    LengthIs(job, 2);
    forall n: nat, k: Books | Booked(job, n, k) && NotOver(job, n) ensures k.pushed == [] {
      if k.pushed != [] { LoopedFrames(job, n, k, 0); }
    }
  }

  lemma FailingSlots(p: seq<Byte>, q: seq<Byte>, rules: Rules)
    ensures var job := Job([Entry(0, true, p), Entry(1, true, q)], [], 8192, 0, rules);
            && job.Visited(0) == [] && job.Visited(1) == [Data(true, p, false)]
            && job.Visited(2) == [Data(true, p, false), Data(true, q, false)]
            && !job.EndsFully(0) && !job.EndsFully(1)
  {
    var ua := [Entry(0, true, p), Entry(1, true, q)];
    var job := Job(ua, [], 8192, 0, rules);
    assert ua[0].number == 0 && ua[1].number == 1;
    SmallJumpsAreFollowable(ua, 8192);
    MergeExact(ua, [], 8192, 0);
    MergeExact(ua, [], 8192, 1);
    assert ua[..1] == [ua[0]];
    hide Pick;
    assert job.Visited(0) == [];
    assert job.Visited(1) == job.Visited(0) + [Pick(ua, [], 8192, 0)];
    assert job.Visited(2) == job.Visited(1) + [Pick(ua, [], 8192, 1)];
  }

  lemma FailingVerdicts(p: seq<Byte>, q: seq<Byte>, rules: Rules)
    requires rules.tolerance == 1 && |q| < rules.frameBytes
    ensures var v := [Data(true, p, false), Data(true, q, false)];
            && Frames(rules, v) == [] && StopsEarly(rules, v)
            && !StopsEarly(rules, []) && !StopsEarly(rules, [Data(true, p, false)])
  {
    var v := [Data(true, p, false), Data(true, q, false)];
    assert v[..1] == [Data(true, p, false)] && v[..1][..0] == [];
    assert Collected(v[..1]) == Some([]) && Bad(rules, v[..1]) == 0 && Frames(rules, v[..1]) == [];
  }
}
