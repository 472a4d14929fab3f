/** Multicast DNS messages: how the node writes names, records and announcements, and how
  * it reads whatever comes from the network. */
module Mdns {
  import opened Wrappers
  import opened Gf2

  type Bytes = seq<Byte>
  type Label = seq<Byte>

  const DOT: Byte := 46
  const EQUALS: Byte := 61
  const MAX_HOPS: nat := 16

  const TYPE_A: nat := 1
  const TYPE_PTR: nat := 12
  const TYPE_TXT: nat := 16
  const TYPE_SRV: nat := 33
  const CLASS_IN: nat := 1
  const CACHE_FLUSH: nat := 0x8000
  const TTL_HOST: nat := 120

  // ---------------------------------------------------------------------------
  // Numbers and names on the wire
  // ---------------------------------------------------------------------------

  function U16(v: nat): (r: Bytes)
    requires v < 0x10000
    ensures |r| == 2
  {
    [v / 256, v % 256]
  }

  function U32(v: nat): (r: Bytes)
    requires v < 0x1_0000_0000
    ensures |r| == 4
  {
    U16(v / 0x10000) + U16(v % 0x10000)
  }

  function Get16(b: Bytes, at: nat): Option<nat> {
    if at + 2 > |b| then None
    else
      var high: nat := b[at];
      Some(high * 256 + b[at + 1])
  }

  function Get32(b: Bytes, at: nat): Option<nat> {
    if at + 4 > |b| then None
    else
      var b0: nat, b1: nat, b2: nat := b[at], b[at + 1], b[at + 2];
      Some(((b0 * 256 + b1) * 256 + b2) * 256 + b[at + 3])
  }

  /** A label is cut to the 63 bytes its length can say. */
  function Cut(l: Label): (r: Label)
    ensures |r| <= 63
  {
    if |l| > 63 then l[..63] else l
  }

  function LabelBytes(l: Label): (r: Bytes)
    ensures |r| == 1 + |Cut(l)|
  {
    var n: Byte := |Cut(l)|;
    [n] + Cut(l)
  }

  function LabelsBytes(ls: seq<Label>): (r: Bytes)
    ensures r != []
  {
    if ls == [] then [0] else LabelBytes(ls[0]) + LabelsBytes(ls[1..])
  }

  /** Labels run together behind what is already there, a dot between any two. */
  function JoinTo(out: Bytes, ls: seq<Label>): Bytes
    decreases |ls|
  {
    if ls == [] then out
    else JoinTo((if out == [] then [] else out + [DOT]) + Cut(ls[0]), ls[1..])
  }

  function Dotted(ls: seq<Label>): Bytes { JoinTo([], ls) }

  /** A name read at some place: its text, and where the name's own bytes end. */
  datatype Name = Name(text: Bytes, next: nat)

  /** Read a name that may be compressed, behind `out`, having followed `hops` pointers. */
  function NameAt(b: Bytes, here: nat, hops: nat, out: Bytes): (r: Option<Name>)
    requires hops <= MAX_HOPS
    ensures r.Some? ==> here < r.value.next <= |b|
    decreases MAX_HOPS - hops, |b| - here
  {
    if here >= |b| then None
    else
      var len: nat := b[here];
      if len / 64 == 3 then
        if here + 1 >= |b| then None
        else
          var target := len % 64 * 256 + b[here + 1];
          if hops + 1 > MAX_HOPS then None
          else match NameAt(b, target, hops + 1, out)
            case None => None
            case Some(n) => Some(Name(n.text, here + 2))
      else if len / 64 != 0 then None
      else if len == 0 then Some(Name(out, here + 1))
      else if here + 1 + len > |b| then None
      else NameAt(b, here + 1 + len, hops, (if out == [] then [] else out + [DOT]) + b[here + 1..here + 1 + len])
  }

  /** A written name reads back as its cut labels joined by dots. */
  lemma {:induction false} NameReadsBack(pre: Bytes, ls: seq<Label>, post: Bytes, hops: nat, out: Bytes)
    requires hops <= MAX_HOPS && forall i :: 0 <= i < |ls| ==> ls[i] != []
    ensures NameAt(pre + LabelsBytes(ls) + post, |pre|, hops, out)
            == Some(Name(JoinTo(out, ls), |pre| + |LabelsBytes(ls)|))
    decreases |ls|
  {
    hide Cut, NameAt;
    if ls == [] {
      RootIsRead(pre, post, hops, out);
    } else {
      var l := ls[0];
      CutKeeps(l);
      var pre2, rest := pre + LabelBytes(l), LabelsBytes(ls[1..]) + post;
      assert pre + LabelsBytes(ls) + post == pre + LabelBytes(l) + rest;
      assert pre + LabelsBytes(ls) + post == pre2 + LabelsBytes(ls[1..]) + post;
      LabelIsRead(pre, l, rest, hops, out);
      NameReadsBack(pre2, ls[1..], post, hops, (if out == [] then [] else out + [DOT]) + Cut(l));
    }
  }

  lemma {:induction false} RootIsRead(pre: Bytes, post: Bytes, hops: nat, out: Bytes)
    requires hops <= MAX_HOPS
    ensures NameAt(pre + LabelsBytes([]) + post, |pre|, hops, out) == Some(Name(out, |pre| + 1))
  {
    assert (pre + LabelsBytes([]) + post)[|pre|] == 0;
  }

  lemma CutKeeps(l: Label)
    ensures l != [] ==> Cut(l) != []
    ensures |l| <= 63 ==> Cut(l) == l
    ensures |Cut(l)| <= 63 && |Cut(l)| <= |l|
  {}

  lemma {:induction false} SliceStays(b: Bytes, more: Bytes, i: nat, j: nat)
    requires i <= j <= |b|
    ensures (b + more)[i..j] == b[i..j]
  {}

  // Reading one step further, at a byte and what it stands for.
  lemma {:induction false} NameStep(b: Bytes, here: nat, hops: nat, out: Bytes)
    requires hops <= MAX_HOPS
    ensures here >= |b| ==> NameAt(b, here, hops, out) == None
    ensures here < |b| ==>
              var len: nat := b[here];
              && (len / 64 == 3 && here + 1 < |b| && hops < MAX_HOPS ==>
                    NameAt(b, here, hops, out)
                    == match NameAt(b, len % 64 * 256 + b[here + 1], hops + 1, out)
                       case None => None
                       case Some(n) => Some(Name(n.text, here + 2)))
              && (len == 0 ==> NameAt(b, here, hops, out) == Some(Name(out, here + 1)))
              && (0 < len < 64 && here + 1 + len <= |b| ==>
                    NameAt(b, here, hops, out)
                    == NameAt(b, here + 1 + len, hops, (if out == [] then [] else out + [DOT]) + b[here + 1..here + 1 + len]))
    ensures here < |b| && NameAt(b, here, hops, out).Some? ==>
              var len: nat := b[here];
              if len / 64 == 3 then here + 1 < |b| && hops < MAX_HOPS else len < 64 && here + 1 + len <= |b|
  {}

  /** Reading a name depends only on bytes the message already has. */
  lemma {:induction false} NameStays(b: Bytes, more: Bytes, here: nat, hops: nat, out: Bytes)
    requires hops <= MAX_HOPS && NameAt(b, here, hops, out).Some?
    ensures NameAt(b + more, here, hops, out) == NameAt(b, here, hops, out)
    decreases MAX_HOPS - hops, |b| - here
  {
    hide NameAt;
    NameStep(b, here, hops, out);
    var len: nat := b[here];
    assert (b + more)[here] == len;
    NameStep(b + more, here, hops, out);
    if len / 64 == 3 {
      assert (b + more)[here + 1] == b[here + 1];
      NameStays(b, more, len % 64 * 256 + b[here + 1], hops + 1, out);
    } else if len != 0 {
      SliceStays(b, more, here + 1, here + 1 + len);
      NameStays(b, more, here + 1 + len, hops, (if out == [] then [] else out + [DOT]) + b[here + 1..here + 1 + len]);
    }
  }

  /** What was read behind `out` is what would have been read from nothing, behind `out`. */
  function Behind(out: Bytes, text: Bytes): Bytes {
    if out == [] then text else if text == [] then out else out + [DOT] + text
  }

  lemma {:induction false} NameBehind(b: Bytes, here: nat, hops: nat, out: Bytes, first: Bytes)
    requires hops <= MAX_HOPS
    ensures NameAt(b, here, hops, Behind(first, out)).Some? <==> NameAt(b, here, hops, out).Some?
    ensures NameAt(b, here, hops, out).Some? ==>
              NameAt(b, here, hops, Behind(first, out))
              == Some(Name(Behind(first, NameAt(b, here, hops, out).value.text), NameAt(b, here, hops, out).value.next))
    decreases MAX_HOPS - hops, |b| - here
  {
    hide Behind;
    if here < |b| {
      var len: nat := b[here];
      if len / 64 == 3 {
        if here + 1 < |b| && hops < MAX_HOPS {
          NameBehind(b, len % 64 * 256 + b[here + 1], hops + 1, out, first);
        }
      } else if len / 64 == 0 && len != 0 && here + 1 + len <= |b| {
        var l := b[here + 1..here + 1 + len];
        var more := (if out == [] then [] else out + [DOT]) + l;
        BehindMore(first, out, l);
        NameBehind(b, here + 1 + len, hops, more, first);
      }
    }
  }

  lemma {:induction false} BehindMore(first: Bytes, out: Bytes, l: Bytes)
    requires l != []
    ensures (if Behind(first, out) == [] then [] else Behind(first, out) + [DOT]) + l
            == Behind(first, (if out == [] then [] else out + [DOT]) + l)
  {}

  /** A compression pointer, two bytes that stand for a name elsewhere. */
  function Pointer(at: nat): (r: Bytes)
    requires at < 0x4000
    ensures |r| == 2
  {
    [192 + at / 256, at % 256]
  }

  lemma {:induction false} HeadFirst(pre: Bytes, l: Bytes, heads: Bytes, pointer: Bytes, post: Bytes)
    ensures pre + (l + heads) + pointer + post == pre + l + (heads + pointer + post) == pre + l + heads + pointer + post
  {}

  /** Compression is expanded: labels followed by a pointer to a readable name read as the
    * labels followed by that name, up to sixteen pointers deep. */
  lemma {:induction false} PointerExpands(pre: Bytes, ls: seq<Label>, at: nat, post: Bytes, hops: nat, out: Bytes)
    requires hops < MAX_HOPS && (forall i :: 0 <= i < |ls| ==> ls[i] != []) && at < 0x4000
    requires NameAt(pre, at, hops + 1, []).Some?
    ensures var b := pre + Heads(ls) + Pointer(at) + post;
            NameAt(b, |pre|, hops, out)
            == Some(Name(Behind(JoinTo(out, ls), NameAt(pre, at, hops + 1, []).value.text), |pre| + |Heads(ls)| + 2))
    decreases |ls|
  {
    hide Cut, Pointer, Behind, NameAt;
    if ls == [] {
      assert pre + Heads(ls) + Pointer(at) + post == pre + Pointer(at) + post;
      PointerIsFollowed(pre, at, post, hops, out);
    } else {
      var l := ls[0];
      CutKeeps(l);
      var pre2, rest := pre + LabelBytes(l), Heads(ls[1..]) + Pointer(at) + post;
      HeadFirst(pre, LabelBytes(l), Heads(ls[1..]), Pointer(at), post);
      LabelIsRead(pre, l, rest, hops, out);
      NameStays(pre, LabelBytes(l), at, hops + 1, []);
      PointerExpands(pre2, ls[1..], at, post, hops, (if out == [] then [] else out + [DOT]) + Cut(l));
    }
  }

  /** Reading passes a label by and goes on behind it. */
  lemma {:induction false} LabelIsRead(pre: Bytes, l: Label, rest: Bytes, hops: nat, out: Bytes)
    requires hops <= MAX_HOPS && l != []
    ensures NameAt(pre + LabelBytes(l) + rest, |pre|, hops, out)
            == NameAt(pre + LabelBytes(l) + rest, |pre| + |LabelBytes(l)|, hops, (if out == [] then [] else out + [DOT]) + Cut(l))
  {
    hide Cut;
    CutKeeps(l);
    var b, n := pre + LabelBytes(l) + rest, |Cut(l)|;
    assert b[|pre|] == n && b[|pre| + 1..|pre| + 1 + n] == Cut(l);
    DivModUnique(n, 0, n, 64);
  }

  lemma {:induction false} PointerIsFollowed(pre: Bytes, at: nat, post: Bytes, hops: nat, out: Bytes)
    requires hops < MAX_HOPS && at < 0x4000 && NameAt(pre, at, hops + 1, []).Some?
    ensures NameAt(pre + Pointer(at) + post, |pre|, hops, out)
            == Some(Name(Behind(out, NameAt(pre, at, hops + 1, []).value.text), |pre| + 2))
  {
    hide Behind;
    var b := pre + Pointer(at) + post;
    assert b[|pre|] == 192 + at / 256 && b[|pre| + 1] == at % 256;
    PointerReads(at);
    assert b == pre + (Pointer(at) + post);
    NameStays(pre, Pointer(at) + post, at, hops + 1, []);
    NameBehind(b, at, hops + 1, [], out);
    BehindNothing(out);
  }

  lemma {:induction false} BehindNothing(out: Bytes)
    ensures Behind(out, []) == out && Behind([], out) == out
  {}

  lemma PointerReads(at: nat)
    requires at < 0x4000
    ensures (192 + at / 256) / 64 == 3 && (192 + at / 256) % 64 * 256 + at % 256 == at
  {}

  /** Labels without the byte that ends a name. */
  function Heads(ls: seq<Label>): Bytes {
    if ls == [] then [] else LabelBytes(ls[0]) + Heads(ls[1..])
  }

  /** A name that points at itself is refused, not followed for ever. */
  lemma {:induction false} SelfPointerRefused(pre: Bytes, post: Bytes, hops: nat, out: Bytes)
    requires |pre| < 0x4000 && hops <= MAX_HOPS
    ensures NameAt(pre + Pointer(|pre|) + post, |pre|, hops, out) == None
    decreases MAX_HOPS - hops
  {
    var b, at := pre + Pointer(|pre|) + post, |pre|;
    assert b[at] == 192 + at / 256 && b[at + 1] == at % 256;
    PointerReads(at);
    if hops < MAX_HOPS { SelfPointerRefused(pre, post, hops + 1, out); }
  }

  // ---------------------------------------------------------------------------
  // Splitting dotted names
  // ---------------------------------------------------------------------------

  /** The labels of a dotted name behind the label begun, empty ones left out. */
  function SplitFrom(cur: Label, name: Bytes): (r: seq<Label>)
    ensures forall i :: 0 <= i < |r| ==> r[i] != []
    decreases |name|
  {
    if name == [] then (if cur == [] then [] else [cur])
    else if name[0] == DOT then (if cur == [] then [] else [cur]) + SplitFrom([], name[1..])
    else SplitFrom(cur + [name[0]], name[1..])
  }

  function Split(name: Bytes): (r: seq<Label>)
    ensures forall i :: 0 <= i < |r| ==> r[i] != []
  {
    SplitFrom([], name)
  }

  /** No empty label: no dot first, last, or after another. */
  predicate NoEmptyLabel(name: Bytes) {
    name != [] ==>
      && name[0] != DOT && name[|name| - 1] != DOT
      && forall i :: 0 < i < |name| ==> !(name[i - 1] == DOT && name[i] == DOT)
  }

  predicate ShortLabels(ls: seq<Label>) { forall i :: 0 <= i < |ls| ==> |ls[i]| <= 63 }

  lemma {:induction false} SplitStarts(name: Bytes)
    requires name != [] && name[0] != DOT
    ensures Split(name) == SplitFrom([name[0]], name[1..]) && [name[0]] + name[1..] == name
  {
    assert [] + [name[0]] == [name[0]];
  }

  /** At a dot the label begun is complete, and another begins. */
  lemma {:induction false} SplitAtDot(cur: Label, name: Bytes)
    requires cur != [] && NoEmptyLabel(cur + name) && name != [] && name[0] == DOT
    ensures name[1..] != [] && name[1..][0] != DOT && NoEmptyLabel(name[1..])
    ensures SplitFrom(cur, name) == [cur] + Split(name[1..])
    ensures cur + name == cur + [DOT] + name[1..]
  {
    var all := cur + name;
    assert all[|cur|] == DOT;
    assert all[|all| - 1] == name[|name| - 1];
    assert all[|cur| + 1] == name[1];
    RestClean(all, |cur| + 1);
    assert all[|cur| + 1..] == name[1..];
  }

  /** The rest of a name behind the label begun, joined to what is before. */
  lemma {:induction false} SplitJoins(out: Bytes, cur: Label, name: Bytes)
    requires ShortLabels(SplitFrom(cur, name)) && cur != [] && NoEmptyLabel(cur + name)
    ensures JoinTo(out, SplitFrom(cur, name)) == Behind(out, cur + name)
    decreases |name|
  {
    hide Cut, NoEmptyLabel, JoinTo, SplitFrom, Behind;
    SplitGoesOn(cur, name);
    if name == [] {
      assert [cur][0] == cur;
      assert cur + [] == cur;
      JoinStep(out, cur, []);
      BehindLabel(out, cur, []);
    } else if name[0] == DOT {
      var rest := name[1..];
      SplitAtDot(cur, name);
      SplitStarts(rest);
      TailShort(cur, Split(rest));
      JoinStep(out, cur, Split(rest));
      var more := (if out == [] then [] else out + [DOT]) + cur;
      SplitJoins(more, [rest[0]], rest[1..]);
      BehindLabel(out, cur, rest);
    } else {
      assert cur + [name[0]] + name[1..] == cur + name;
      SplitJoins(out, cur + [name[0]], name[1..]);
    }
  }

  lemma {:induction false} SplitGoesOn(cur: Label, name: Bytes)
    requires cur != []
    ensures name == [] ==> SplitFrom(cur, name) == [cur]
    ensures name != [] && name[0] != DOT ==> SplitFrom(cur, name) == SplitFrom(cur + [name[0]], name[1..])
  {}

  lemma {:induction false} BehindLabel(out: Bytes, cur: Label, rest: Bytes)
    requires cur != []
    ensures var more := (if out == [] then [] else out + [DOT]) + cur;
            more == Behind(out, cur) && (rest != [] ==> Behind(more, rest) == Behind(out, cur + [DOT] + rest))
  {}

  lemma {:induction false} TailShort(cur: Label, tail: seq<Label>)
    requires ShortLabels([cur] + tail)
    ensures |cur| <= 63 && ShortLabels(tail)
  {
    var all := [cur] + tail;
    assert |all[0]| <= 63;
    forall i | 0 <= i < |tail| ensures |tail[i]| <= 63 { assert |all[i + 1]| <= 63; }
  }

  lemma {:induction false} JoinStep(out: Bytes, cur: Label, tail: seq<Label>)
    requires |cur| <= 63
    ensures JoinTo(out, [cur] + tail) == JoinTo((if out == [] then [] else out + [DOT]) + cur, tail)
    ensures [cur] + [] == [cur] && JoinTo(out, []) == out
    ensures JoinTo((if out == [] then [] else out + [DOT]) + cur, []) == (if out == [] then [] else out + [DOT]) + cur
  {
    CutKeeps(cur);
    assert ([cur] + tail)[1..] == tail;
  }

  lemma {:induction false} RestClean(name: Bytes, k: nat)
    requires NoEmptyLabel(name) && 0 < k < |name| && name[k] != DOT
    ensures NoEmptyLabel(name[k..])
  {
    var rest := name[k..];
    forall i | 0 < i < |rest| ensures !(rest[i - 1] == DOT && rest[i] == DOT) {
      assert rest[i - 1] == name[k + i - 1] && rest[i] == name[k + i];
    }
    assert rest[|rest| - 1] == name[|name| - 1];
  }

  /** A dotted name without empty or overlong labels is written and read back as itself. */
  lemma {:induction false} DottedNameReadsBack(pre: Bytes, name: Bytes, post: Bytes)
    requires NoEmptyLabel(name) && ShortLabels(Split(name))
    ensures NameAt(pre + LabelsBytes(Split(name)) + post, |pre|, 0, [])
            == Some(Name(name, |pre| + |LabelsBytes(Split(name))|))
  {
    hide LabelsBytes, NameAt;
    NameReadsBack(pre, Split(name), post, 0, []);
    if name != [] {
      SplitStarts(name);
      SplitJoins([], [name[0]], name[1..]);
    }
  }

  // ---------------------------------------------------------------------------
  // Records and messages
  // ---------------------------------------------------------------------------

  /** A record to write. */
  datatype Rec = Rec(name: seq<Label>, type_: nat, cls: nat, ttl: nat, rdata: Bytes) {
    predicate Ok() {
      && (forall i :: 0 <= i < |name| ==> name[i] != [])
      && type_ < 0x10000 && cls < 0x10000 && ttl < 0x1_0000_0000 && |rdata| < 0x10000
    }
  }

  function HeadBytes(r: Rec): (b: Bytes)
    requires r.Ok()
    ensures b != []
  {
    LabelsBytes(r.name) + U16(r.type_) + U16(r.cls) + U32(r.ttl) + U16(|r.rdata|)
  }

  function RecBytes(r: Rec): (b: Bytes)
    requires r.Ok()
    ensures b != []
  {
    HeadBytes(r) + r.rdata
  }

  /** A record as read: its data is left where it lies in the message. */
  datatype Record = Record(name: Bytes, type_: nat, cls: nat, ttl: nat, rdataAt: nat, rdataLen: nat)

  datatype Question = Question(name: Bytes, type_: nat, cls: nat)

  datatype Message = Message(flags: nat, questions: seq<Question>, records: seq<Record>)

  datatype Read<+T> = Read(value: T, next: nat)

  function ReadQuestion(b: Bytes, at: nat): (r: Option<Read<Question>>)
    ensures r.Some? ==> at < r.value.next <= |b|
  {
    match NameAt(b, at, 0, [])
    case None => None
    case Some(n) =>
      match Get16(b, n.next)
      case None => None
      case Some(t) =>
        match Get16(b, n.next + 2)
        case None => None
        case Some(c) => Some(Read(Question(n.text, t, c), n.next + 4))
  }

  function ReadRecord(b: Bytes, at: nat): (r: Option<Read<Record>>)
    ensures r.Some? ==> at < r.value.next <= |b|
    ensures r.Some? ==> r.value.value.rdataAt + r.value.value.rdataLen == r.value.next
  {
    match NameAt(b, at, 0, [])
    case None => None
    case Some(n) =>
      match Get16(b, n.next)
      case None => None
      case Some(t) =>
        match Get16(b, n.next + 2)
        case None => None
        case Some(c) =>
          match Get32(b, n.next + 4)
          case None => None
          case Some(ttl) =>
            match Get16(b, n.next + 8)
            case None => None
            case Some(len) =>
              if n.next + 10 + len > |b| then None
              else Some(Read(Record(n.text, t, c, ttl, n.next + 10, len), n.next + 10 + len))
  }

  function ReadQuestions(b: Bytes, at: nat, count: nat, soFar: seq<Question>): Option<Read<seq<Question>>>
    decreases count
  {
    if count == 0 then Some(Read(soFar, at))
    else match ReadQuestion(b, at)
      case None => None
      case Some(r) => ReadQuestions(b, r.next, count - 1, soFar + [r.value])
  }

  function ReadRecords(b: Bytes, at: nat, count: nat, soFar: seq<Record>): Option<Read<seq<Record>>>
    decreases count
  {
    if count == 0 then Some(Read(soFar, at))
    else match ReadRecord(b, at)
      case None => None
      case Some(r) => ReadRecords(b, r.next, count - 1, soFar + [r.value])
  }

  const HEADER_BYTES: nat := 12

  /** A whole message, whatever bytes it is. */
  function ParseMessage(b: Bytes): Option<Message> {
    if |b| < HEADER_BYTES then None
    else
      match ReadQuestions(b, HEADER_BYTES, Get16(b, 4).value, [])
      case None => None
      case Some(q) =>
        match ReadRecords(b, q.next, Get16(b, 6).value + Get16(b, 8).value + Get16(b, 10).value, [])
        case None => None
        case Some(r) => Some(Message(Get16(b, 2).value, q.value, r.value))
  }

  lemma {:induction false} GetsBack16(pre: Bytes, v: nat, post: Bytes)
    requires v < 0x10000
    ensures Get16(pre + U16(v) + post, |pre|) == Some(v)
  {
    var b := pre + U16(v) + post;
    assert b[|pre|] == v / 256 && b[|pre| + 1] == v % 256;
  }

  lemma {:induction false} GetsBack32(pre: Bytes, v: nat, post: Bytes)
    requires v < 0x1_0000_0000
    ensures Get32(pre + U32(v) + post, |pre|) == Some(v)
  {
    var b, high, low := pre + U32(v) + post, v / 0x10000, v % 0x10000;
    assert b[|pre|] == high / 256 && b[|pre| + 1] == high % 256 && b[|pre| + 2] == low / 256 && b[|pre| + 3] == low % 256;
    FourBytes(high, low);
  }

  lemma FourBytes(high: nat, low: nat)
    requires high < 0x10000 && low < 0x10000
    ensures ((high / 256 * 256 + high % 256) * 256 + low / 256) * 256 + low % 256 == high * 0x10000 + low
  {}

  /** A record as it is found in a message it was written into at `at`. */
  function Found(r: Rec, at: nat): Record
    requires r.Ok()
  {
    Record(Dotted(r.name), r.type_, r.cls, r.ttl, at + |HeadBytes(r)|, |r.rdata|)
  }

  lemma {:induction false} Regrouped(pre: Bytes, n: Bytes, t: Bytes, c: Bytes, l: Bytes, len: Bytes, d: Bytes, post: Bytes)
    ensures var b := pre + (n + t + c + l + len + d) + post;
            && b == pre + n + (t + c + l + len + d + post) == pre + n + t + (c + l + len + d + post)
            && b == pre + n + t + c + (l + len + d + post) == pre + n + t + c + l + (len + d + post)
            && b == pre + n + t + c + l + len + (d + post)
            && b[|pre + n + t + c + l + len|..|pre + n + t + c + l + len| + |d|] == d
  {}

  lemma {:induction false} RecordReadsBack(pre: Bytes, r: Rec, post: Bytes)
    requires r.Ok()
    ensures var b := pre + RecBytes(r) + post;
            && ReadRecord(b, |pre|) == Some(Read(Found(r, |pre|), |pre| + |RecBytes(r)|))
            && b[|pre| + |HeadBytes(r)|..|pre| + |HeadBytes(r)| + |r.rdata|] == r.rdata
  {
    hide NameAt, LabelsBytes, U16, U32, Get16, Get32, JoinTo;
    var n := LabelsBytes(r.name);
    var t, c, l, len := U16(r.type_), U16(r.cls), U32(r.ttl), U16(|r.rdata|);
    var b := pre + RecBytes(r) + post;
    Regrouped(pre, n, t, c, l, len, r.rdata, post);
    NameReadsBack(pre, r.name, t + c + l + len + r.rdata + post, 0, []);
    GetsBack16(pre + n, r.type_, c + l + len + r.rdata + post);
    GetsBack16(pre + n + t, r.cls, l + len + r.rdata + post);
    GetsBack32(pre + n + t + c, r.ttl, len + r.rdata + post);
    GetsBack16(pre + n + t + c + l, |r.rdata|, r.rdata + post);
  }

  ghost predicate AllOk(rs: seq<Rec>) { forall i :: 0 <= i < |rs| ==> rs[i].Ok() }

  function RecsBytes(rs: seq<Rec>): Bytes
    requires forall i :: 0 <= i < |rs| ==> rs[i].Ok()
  {
    if rs == [] then [] else RecBytes(rs[0]) + RecsBytes(rs[1..])
  }

  /** The records of a run, where each is found. */
  function FoundAll(rs: seq<Rec>, at: nat): (r: seq<Record>)
    requires forall i :: 0 <= i < |rs| ==> rs[i].Ok()
    ensures |r| == |rs|
  {
    if rs == [] then [] else [Found(rs[0], at)] + FoundAll(rs[1..], at + |RecBytes(rs[0])|)
  }

  lemma {:induction false} AppendOne(soFar: seq<Record>, r: Record, rest: seq<Record>)
    ensures soFar + [r] + rest == soFar + ([r] + rest)
  {}

  lemma {:induction false} RecordsReadBack(pre: Bytes, rs: seq<Rec>, soFar: seq<Record>)
    requires AllOk(rs)
    ensures ReadRecords(pre + RecsBytes(rs), |pre|, |rs|, soFar)
            == Some(Read(soFar + FoundAll(rs, |pre|), |pre| + |RecsBytes(rs)|))
    decreases |rs|
  {
    hide ReadRecord, RecBytes, Found, Rec.Ok;
    if rs == [] {
      assert soFar + [] == soFar;
    } else {
      var first, rest := RecBytes(rs[0]), RecsBytes(rs[1..]);
      assert pre + RecsBytes(rs) == pre + first + rest;
      RecordReadsBack(pre, rs[0], rest);
      RecordsReadBack(pre + first, rs[1..], soFar + [Found(rs[0], |pre|)]);
      AppendOne(soFar, Found(rs[0], |pre|), FoundAll(rs[1..], |pre + first|));
    }
  }

  /** The data of every record is found where the record says. */
  lemma {:induction false} DataIsThere(pre: Bytes, rs: seq<Rec>, post: Bytes, i: nat)
    requires AllOk(rs) && i < |rs|
    ensures var b, f := pre + RecsBytes(rs) + post, FoundAll(rs, |pre|)[i];
            && f.name == Dotted(rs[i].name) && f.type_ == rs[i].type_ && f.cls == rs[i].cls && f.ttl == rs[i].ttl
            && f.rdataAt + f.rdataLen <= |b| && b[f.rdataAt..f.rdataAt + f.rdataLen] == rs[i].rdata
    decreases |rs|
  {
    hide ReadRecord, HeadBytes, JoinTo, Rec.Ok;
    var first, rest := RecBytes(rs[0]), RecsBytes(rs[1..]);
    assert pre + RecsBytes(rs) + post == pre + first + (rest + post);
    if i == 0 {
      RecordReadsBack(pre, rs[0], rest + post);
    } else {
      assert pre + RecsBytes(rs) + post == pre + first + rest + post;
      DataIsThere(pre + first, rs[1..], post, i - 1);
    }
  }
}
