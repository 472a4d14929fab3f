/** Multicast DNS messages byte by byte: names, records and announcements as RFC 1035
  * (section 4.1), RFC 6762 (section 18) and RFC 6763 (section 6) lay them out. */
module MdnsWire {
  import opened Wrappers
  import opened Mdns
  import opened MdnsService

  /** Two bytes, and four, as a number, the first the highest. */
  function Big16(b: Bytes, at: nat): int
    requires at + 2 <= |b|
  {
    0x100 * (b[at] as int) + b[at + 1]
  }

  function Big32(b: Bytes, at: nat): int
    requires at + 4 <= |b|
  {
    0x100_0000 * (b[at] as int) + 0x1_0000 * (b[at + 1] as int) + 0x100 * (b[at + 2] as int) + b[at + 3]
  }

  /** At this place of a message lies a record: its name, ten bytes of numbers, and its data. */
  predicate RecordAt(b: Bytes, at: nat, name: Bytes, type_: nat, cls: nat, ttl: nat, data: Bytes) {
    var n := at + |name|;
    && n + 10 + |data| <= |b| && b[at..n] == name
    && Big16(b, n) == type_ && Big16(b, n + 2) == cls && Big32(b, n + 4) == ttl && Big16(b, n + 8) == |data|
    && b[n + 10..n + 10 + |data|] == data
  }

  lemma {:induction false} PutsBack16(pre: Bytes, v: nat, post: Bytes)
    requires v < 0x10000
    ensures Big16(pre + U16(v) + post, |pre|) == v
  {}

  lemma {:induction false} PutsBack32(pre: Bytes, v: nat, post: Bytes)
    requires v < 0x1_0000_0000
    ensures Big32(pre + U32(v) + post, |pre|) == v
  {
    var b, high, low := pre + U32(v) + post, v / 0x10000, v % 0x10000;
    assert b[|pre|] == high / 256 && b[|pre| + 1] == high % 256 && b[|pre| + 2] == low / 256 && b[|pre| + 3] == low % 256;
    FourBytes(high, low);
  }

  /** Every record is written so. */
  lemma {:induction false} RecordOnWire(pre: Bytes, r: Rec, post: Bytes)
    requires r.Ok()
    ensures RecordAt(pre + RecBytes(r) + post, |pre|, LabelsBytes(r.name), r.type_, r.cls, r.ttl, r.rdata)
  {
    hide LabelsBytes, U16, U32, Big16, Big32, Rec.Ok;
    NumbersFit(r);
    var n := LabelsBytes(r.name);
    var t, c, l, len := U16(r.type_), U16(r.cls), U32(r.ttl), U16(|r.rdata|);
    var b := pre + RecBytes(r) + post;
    Regrouped(pre, n, t, c, l, len, r.rdata, post);
    PutsBack16(pre + n, r.type_, c + l + len + r.rdata + post);
    PutsBack16(pre + n + t, r.cls, l + len + r.rdata + post);
    PutsBack32(pre + n + t + c, r.ttl, len + r.rdata + post);
    PutsBack16(pre + n + t + c + l, |r.rdata|, r.rdata + post);
    assert b[|pre|..|pre| + |n|] == n;
  }

  lemma NumbersFit(r: Rec)
    requires r.Ok()
    ensures r.type_ < 0x10000 && r.cls < 0x10000 && r.ttl < 0x1_0000_0000 && |r.rdata| < 0x10000
  {}

  /** And so are the records of a run, one after another. */
  lemma {:induction false} RecordsOnWire(pre: Bytes, rs: seq<Rec>, post: Bytes, i: nat)
    requires AllOk(rs) && i < |rs|
    ensures RecordAt(pre + RecsBytes(rs) + post, |pre| + |RecsBytes(rs[..i])|, LabelsBytes(rs[i].name),
                     rs[i].type_, rs[i].cls, rs[i].ttl, rs[i].rdata)
    decreases |rs|
  {
    hide RecBytes, LabelsBytes, RecordAt, Rec.Ok;
    var first, rest := RecBytes(rs[0]), RecsBytes(rs[1..]);
    assert pre + RecsBytes(rs) + post == pre + first + (rest + post);
    if i == 0 {
      RecordOnWire(pre, rs[0], rest + post);
      assert rs[..0] == [];
    } else {
      assert pre + RecsBytes(rs) + post == (pre + first) + rest + post;
      RecordsOnWire(pre + first, rs[1..], post, i - 1);
      assert rs[..i][0] == rs[0] && rs[..i][1..] == rs[1..][..i - 1];
    }
  }

  /** The header of a response: no identifier, authoritative, no questions, so many answers. */
  predicate HeaderSays(b: Bytes, count: nat) {
    && |b| >= 12 && Big16(b, 0) == 0 && Big16(b, 2) == 0x8400 && Big16(b, 4) == 0 && Big16(b, 6) == count
    && Big16(b, 8) == 0 && Big16(b, 10) == 0
  }

  /** The `i`-th record of a service's announcement lies at a place: two pointers, the service's
    * place, its text and its address, the last three flushing caches, and the place and the
    * address for two minutes or not at all. */
  predicate AnnouncedAt(b: Bytes, at: nat, s: Service, ttl: nat, i: nat)
    requires s.Ok()
  {
    var type_, instance, host := LabelsBytes(Split(s.typeName)), LabelsBytes(s.InstanceLabels()), LabelsBytes(Split(s.hostName));
    var brief := if ttl == 0 then 0 else 120;
    match i
    case 0 => RecordAt(b, at, type_, 12, 1, ttl, instance)
    case 1 => RecordAt(b, at, LabelsBytes(ENUMERATION), 12, 1, ttl, type_)
    case 2 => RecordAt(b, at, instance, 33, 0x8001, brief, SrvBytes(s))
    case 3 => RecordAt(b, at, instance, 16, 0x8001, ttl, TxtBytes(s.txt))
    case _ => RecordAt(b, at, host, 1, 0x8001, brief, s.address)
  }

  /** Where the `i`-th record begins: behind the header and the records before it. */
  function StartOf(s: Service, ttl: nat, i: nat): nat
    requires s.Ok() && ttl < 0x1_0000_0000
  {
    RecsAreOk(s, ttl, if ttl != 0 then TTL_HOST else 0, true, true, true, true);
    var rs := AnnouncementRecs(s, ttl);
    12 + |RecsBytes(if i < |rs| then rs[..i] else rs)|
  }

  lemma {:induction false} AnnouncementOnWire(s: Service, ttl: nat, i: nat)
    requires s.Ok() && ttl < 0x1_0000_0000 && i < |AnnouncementRecs(s, ttl)|
    ensures |AnnouncementRecs(s, ttl)| == if s.address == [0, 0, 0, 0] then 4 else 5
    ensures HeaderSays(Announcement(s, ttl), |AnnouncementRecs(s, ttl)|)
    ensures AnnouncedAt(Announcement(s, ttl), StartOf(s, ttl, i), s, ttl, i)
  {
    hide RecordAt, RecsBytes, HeaderBytes, LabelsBytes, HeaderSays, Split, TxtBytes, SrvBytes, Service.Ok;
    var rs := AnnouncementRecs(s, ttl);
    RecsAreOk(s, ttl, if ttl != 0 then TTL_HOST else 0, true, true, true, true);
    FiveRecords(s, ttl);
    HeaderOnWire(|rs|, RecsBytes(rs));
    RecordsOnWire(HeaderBytes(|rs|), rs, [], i);
    assert HeaderBytes(|rs|) + RecsBytes(rs) + [] == HeaderBytes(|rs|) + RecsBytes(rs);
  }

  lemma {:induction false} HeaderOnWire(count: nat, post: Bytes)
    requires count < 0x10000
    ensures |HeaderBytes(count)| == 12 && HeaderSays(HeaderBytes(count) + post, count)
  {}

  /** The place of a service: priority and weight zero, its port, and its host. */
  lemma {:induction false} PlaceOnWire(s: Service)
    requires s.Ok()
    ensures var b := SrvBytes(s);
            |b| >= 6 && Big16(b, 0) == 0 && Big16(b, 2) == 0 && Big16(b, 4) == s.port && b[6..] == LabelsBytes(Split(s.hostName))
  {
    hide LabelsBytes, Split;
  }

  /** The name under which all types of service are enumerated. */
  lemma EnumerationOnWire()
    ensures LabelsBytes(ENUMERATION)
            == [9] + Ascii("_services") + [7] + Ascii("_dns-sd") + [4] + Ascii("_udp") + [5] + Ascii("local") + [0]
  {
    var a, b, c, d := Ascii("_services"), Ascii("_dns-sd"), Ascii("_udp"), Ascii("local");
    EnumerationNames();
    hide Ascii;
    LabelOnWire(a, [b, c, d]);
    LabelOnWire(b, [c, d]);
    LabelOnWire(c, [d]);
    LabelOnWire(d, []);
    assert LabelsBytes([]) == [0];
  }

  lemma EnumerationNames()
    ensures ENUMERATION == [Ascii("_services"), Ascii("_dns-sd"), Ascii("_udp"), Ascii("local")]
  {
    assert Ascii("_services") == ENUMERATION[0];
    assert Ascii("_dns-sd") == ENUMERATION[1];
    assert Ascii("_udp") == ENUMERATION[2];
    assert Ascii("local") == ENUMERATION[3];
  }

  lemma {:induction false} LabelOnWire(l: Label, rest: seq<Label>)
    requires |l| < 64
    ensures LabelsBytes([l] + rest) == [|l|] + l + LabelsBytes(rest)
  {
    assert ([l] + rest)[1..] == rest;
  }

  /** A pointer is two bytes, the first two bits set and the place it points to in the others. */
  lemma PointerOnWire(at: nat)
    requires at < 0x4000
    ensures |Pointer(at)| == 2 && Big16(Pointer(at), 0) == 0xC000 + at
  {}

  /** Sixteen pointers deep a name may be, and no deeper. */
  lemma {:induction false} SixteenPointers(pre: Bytes, at: nat, post: Bytes, hops: nat)
    requires hops <= 16 && at < 0x4000
    requires hops < 16 ==> NameAt(pre, at, hops + 1, []).Some?
    ensures MAX_HOPS == 16 && (NameAt(pre + Pointer(at) + post, |pre|, hops, []).Some? <==> hops < 16)
  {
    var b := pre + Pointer(at) + post;
    if hops < 16 {
      PointerIsFollowed(pre, at, post, hops, []);
    } else {
      assert b[|pre|] == 192 + at / 256;
      PointerReads(at);
    }
  }

  /** A dotted name is split at each dot, where a dot is the character. */
  lemma {:induction false} SplitsAtDot(l: Label, name: Bytes)
    requires l != [] && forall i :: 0 <= i < |l| ==> l[i] != '.' as int
    ensures Split(l + Ascii(".") + name) == [l] + Split(name)
  {
    var dot := Ascii(".");
    assert dot == ['.' as int] && (dot + name)[1..] == name;
    SplitsPast([], l, dot + name);
    assert l + dot + name == l + (dot + name) && [] + l == l;
  }

  lemma {:induction false} SplitsPast(cur: Label, l: Label, name: Bytes)
    requires forall i :: 0 <= i < |l| ==> l[i] != '.' as int
    ensures SplitFrom(cur, l + name) == SplitFrom(cur + l, name)
    decreases |l|
  {
    if l == [] {
      assert [] + name == name && cur + [] == cur;
    } else {
      assert (l + name)[0] == l[0] && (l + name)[1..] == l[1..] + name;
      assert cur + [l[0]] + l[1..] == cur + l;
      SplitsPast(cur + [l[0]], l[1..], name);
    }
  }

  /** Labels read are put back together with dots between. */
  lemma {:induction false} DotsBetween(l: Label, rest: seq<Label>)
    requires 0 < |l| < 64 && rest != [] && forall i :: 0 <= i < |rest| ==> rest[i] != []
    ensures Dotted([l] + rest) == l + Ascii(".") + Dotted(rest)
  {
    hide JoinTo;
    JoinStep([], l, rest);
    assert [] + l == l;
    JoinsBehind(l, rest);
  }

  lemma {:induction false} JoinsBehind(out: Bytes, rest: seq<Label>)
    requires out != [] && forall i :: 0 <= i < |rest| ==> rest[i] != []
    ensures JoinTo(out, rest) == if rest == [] then out else out + Ascii(".") + Dotted(rest)
    decreases |rest|
  {
    if rest != [] {
      var c, tail := Cut(rest[0]), rest[1..];
      assert c != [];
      JoinsBehind(out + [DOT] + c, tail);
      JoinsBehind(c, tail);
      assert [] + c == c;
      assert Ascii(".") == [DOT];
      if tail != [] {
        assert out + [DOT] + c + Ascii(".") + Dotted(tail) == out + [DOT] + (c + Ascii(".") + Dotted(tail));
      }
    }
  }

  /** A question is a name, a type and a class. */
  lemma {:induction false} QuestionReads(pre: Bytes, name: seq<Label>, type_: nat, cls: nat, post: Bytes)
    requires (forall i :: 0 <= i < |name| ==> name[i] != []) && type_ < 0x10000 && cls < 0x10000
    ensures var b := pre + LabelsBytes(name) + [type_ / 256, type_ % 256, cls / 256, cls % 256] + post;
            ReadQuestion(b, |pre|) == Some(Read(Question(Dotted(name), type_, cls), |pre| + |LabelsBytes(name)| + 4))
  {
    var n, t, c := LabelsBytes(name), U16(type_), U16(cls);
    assert [type_ / 256, type_ % 256, cls / 256, cls % 256] == t + c;
    var b := pre + n + (t + c) + post;
    hide NameAt, LabelsBytes, U16, Get16, JoinTo;
    assert b == pre + n + (t + c + post) == pre + n + t + (c + post) == pre + n + t + c + post;
    NameReadsBack(pre, name, t + c + post, 0, []);
    GetsBack16(pre + n, type_, c + post);
    GetsBack16(pre + n + t, cls, post);
  }

  /** A pair of a TXT map on the wire. */
  lemma PairOnWire(key: Bytes, value: Bytes)
    requires |key| + 1 + |value| < 256
    ensures TxtBytes([Pair(key, value)]) == [|key| + 1 + |value|] + key + Ascii("=") + value
    ensures TxtBytes([]) == [0]
  {
    hide Ascii;
    EqualsIs();
    var ps := [Pair(key, value)];
    assert ps[1..] == [] && Strings([]) == [];
    assert CutEntry(ps[0]) == key + [EQUALS] + value;
  }

  lemma EqualsIs()
    ensures Ascii("=") == [EQUALS]
  {}
}
