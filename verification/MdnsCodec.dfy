/** The message writer and reader, with the buffer they fill and the cursor they move. */
module MdnsCodec {
  import opened Wrappers
  import opened Mdns
  import opened MdnsService

  // ---------------------------------------------------------------------------
  // Writing
  // ---------------------------------------------------------------------------

  /** Split a dotted name into labels. */
  method SplitName(name: Bytes) returns (ls: seq<Label>)
    ensures ls == Split(name)
  {
    ls := [];
    var cur: Label := [];
    var i := 0;
    while i < |name|
      invariant i <= |name| && ls + SplitFrom(cur, name[i..]) == Split(name)
    {
      assert name[i..][1..] == name[i + 1..];
      if name[i] == DOT {
        if cur != [] { ls := ls + [cur]; }
        cur := [];
      } else {
        cur := cur + [name[i]];
      }
      i := i + 1;
    }
    if cur != [] { ls := ls + [cur]; }
  }

  class Writer {
    var b: Bytes

    constructor ()
      ensures b == []
    {
      b := [];
    }

    method PutU8(v: Byte)
      modifies this
      ensures b == old(b) + [v]
    {
      b := b + [v];
    }

    method PutU16(v: nat)
      requires v < 0x10000
      modifies this
      ensures b == old(b) + U16(v)
    {
      b := b + [v / 256];
      b := b + [v % 256];
    }

    method PutU32(v: nat)
      requires v < 0x1_0000_0000
      modifies this
      ensures b == old(b) + U32(v)
    {
      PutU16(v / 0x10000);
      PutU16(v % 0x10000);
    }

    method PutBytes(x: Bytes)
      modifies this
      ensures b == old(b) + x
    {
      b := b + x;
    }

    /** A name in full, each label cut to 63 bytes. */
    method PutLabels(ls: seq<Label>)
      modifies this
      ensures b == old(b) + LabelsBytes(ls)
    {
      hide Cut;
      var i := 0;
      while i < |ls|
        invariant i <= |ls| && b + LabelsBytes(ls[i..]) == old(b) + LabelsBytes(ls)
      {
        assert ls[i..][1..] == ls[i + 1..];
        var n: Byte := |Cut(ls[i])|;
        PutU8(n);
        PutBytes(Cut(ls[i]));
        i := i + 1;
      }
      PutU8(0);
    }

    /** All of a record but its data, with its length to be filled in at `at`. */
    method RecordHead(name: seq<Label>, type_: nat, cls: nat, ttl: nat) returns (at: nat)
      requires type_ < 0x10000 && cls < 0x10000 && ttl < 0x1_0000_0000
      modifies this
      ensures b == old(b) + (LabelsBytes(name) + U16(type_) + U16(cls) + U32(ttl)) + [0, 0] && at == |b| - 2
    {
      hide LabelsBytes, U32;
      PutLabels(name);
      PutU16(type_);
      PutU16(cls);
      PutU32(ttl);
      at := |b|;
      PutU16(0);
    }

    method PatchLength(at: nat)
      requires at + 2 <= |b|
      modifies this
      ensures b == old(b)[..at] + U16((|old(b)| - at - 2) % 0x10000) + old(b)[at + 2..]
    {
      var n := (|b| - at - 2) % 0x10000;
      b := b[at := n / 256];
      b := b[at + 1 := n % 256];
    }
  }

  /** A record's head, its data behind it and its length filled in. */
  lemma {:induction false} RecordWritten(base: Bytes, r: Rec)
    requires r.Ok()
    ensures var head := LabelsBytes(r.name) + U16(r.type_) + U16(r.cls) + U32(r.ttl);
            var at := |base| + |head|;
            var b := base + head + [0, 0] + r.rdata;
            && |b| - at - 2 == |r.rdata|
            && b[..at] + U16(|r.rdata| % 0x10000) + b[at + 2..] == base + RecBytes(r)
  {
    hide LabelsBytes, U16, U32;
    var head := LabelsBytes(r.name) + U16(r.type_) + U16(r.cls) + U32(r.ttl);
    var at := |base| + |head|;
    var b := base + head + [0, 0] + r.rdata;
    assert b[..at] == base + head && b[at + 2..] == r.rdata;
    assert RecBytes(r) == head + U16(|r.rdata|) + r.rdata;
  }

  lemma {:induction false} RecsJoin(a: seq<Rec>, r: Rec)
    requires AllOk(a) && r.Ok()
    ensures AllOk(a + [r]) && RecsBytes(a + [r]) == RecsBytes(a) + RecBytes(r)
    decreases |a|
  {
    hide RecBytes, Rec.Ok;
    if a == [] {
      assert a + [r] == [r] && [r][1..] == [];
    } else {
      assert (a + [r])[1..] == a[1..] + [r];
      RecsJoin(a[1..], r);
    }
  }

  /** With its data behind the head and the length filled in, a record joins those before it. */
  lemma {:induction false} RecordJoins(base: Bytes, before: seq<Rec>, r: Rec)
    requires r.Ok() && AllOk(before)
    ensures var head := LabelsBytes(r.name) + U16(r.type_) + U16(r.cls) + U32(r.ttl);
            var at := |base + RecsBytes(before)| + |head|;
            var b := base + RecsBytes(before) + head + [0, 0] + r.rdata;
            && |b| - at - 2 == |r.rdata| < 0x10000
            && AllOk(before + [r])
            && b[..at] + U16(|r.rdata| % 0x10000) + b[at + 2..] == base + RecsBytes(before + [r])
  {
    hide RecBytes, RecsBytes, LabelsBytes, U16, U32;
    RecordWritten(base + RecsBytes(before), r);
    RecsJoin(before, r);
  }

  /** A record whose data is a name. */
  method PutNameRecord(w: Writer, ghost base: Bytes, ghost before: seq<Rec>,
                       name: seq<Label>, type_: nat, ttl: nat, target: seq<Label>)
    requires Rec(name, type_, CLASS_IN, ttl, LabelsBytes(target)).Ok() && AllOk(before)
    requires w.b == base + RecsBytes(before)
    modifies w
    ensures AllOk(before + [Rec(name, type_, CLASS_IN, ttl, LabelsBytes(target))])
    ensures w.b == base + RecsBytes(before + [Rec(name, type_, CLASS_IN, ttl, LabelsBytes(target))])
  {
    hide RecBytes, RecsBytes, LabelsBytes, U16, U32;
    RecordJoins(base, before, Rec(name, type_, CLASS_IN, ttl, LabelsBytes(target)));
    var at := w.RecordHead(name, type_, CLASS_IN, ttl);
    w.PutLabels(target);
    w.PatchLength(at);
  }

  method PutSrvRecord(w: Writer, ghost base: Bytes, ghost before: seq<Rec>, s: Service, ttlHost: nat)
    requires s.Ok() && SrvRec(s, ttlHost).Ok() && AllOk(before)
    requires w.b == base + RecsBytes(before)
    modifies w
    ensures AllOk(before + [SrvRec(s, ttlHost)]) && w.b == base + RecsBytes(before + [SrvRec(s, ttlHost)])
  {
    hide RecBytes, RecsBytes, LabelsBytes, U16, U32, Split;
    RecordJoins(base, before, SrvRec(s, ttlHost));
    var typeLabels := SplitName(s.typeName);
    var hostLabels := SplitName(s.hostName);
    var at := w.RecordHead([s.instance] + typeLabels, TYPE_SRV, CLASS_IN + CACHE_FLUSH, ttlHost);
    ghost var head := w.b;
    w.PutU16(0);
    w.PutU16(0);
    w.PutU16(s.port);
    w.PutLabels(hostLabels);
    assert w.b == head + SrvBytes(s);
    w.PatchLength(at);
  }

  method PutTxtRecord(w: Writer, ghost base: Bytes, ghost before: seq<Rec>, s: Service, ttlService: nat)
    requires s.Ok() && TxtRec(s, ttlService).Ok() && AllOk(before)
    requires w.b == base + RecsBytes(before)
    modifies w
    ensures AllOk(before + [TxtRec(s, ttlService)]) && w.b == base + RecsBytes(before + [TxtRec(s, ttlService)])
  {
    hide RecBytes, RecsBytes, LabelsBytes, U16, U32, Split, TxtBytes;
    RecordJoins(base, before, TxtRec(s, ttlService));
    var typeLabels := SplitName(s.typeName);
    var at := w.RecordHead([s.instance] + typeLabels, TYPE_TXT, CLASS_IN + CACHE_FLUSH, ttlService);
    PutTxt(w, s.txt);
    w.PatchLength(at);
  }

  /** The TXT data: one length-prefixed string a pair, or one empty string if there is none. */
  method PutTxt(w: Writer, txt: seq<Pair>)
    modifies w
    ensures w.b == old(w.b) + TxtBytes(txt)
  {
    hide CutEntry;
    if txt == [] {
      w.PutU8(0);
    } else {
      var i := 0;
      while i < |txt|
        invariant i <= |txt| && w.b + Strings(txt[i..]) == old(w.b) + Strings(txt)
      {
        assert txt[i..][1..] == txt[i + 1..];
        var n: Byte := |CutEntry(txt[i])|;
        w.PutU8(n);
        w.PutBytes(CutEntry(txt[i]));
        i := i + 1;
      }
    }
  }

  method PutAddressRecord(w: Writer, ghost base: Bytes, ghost before: seq<Rec>, s: Service, ttlHost: nat)
    requires Rec(s.HostLabels(), TYPE_A, CLASS_IN + CACHE_FLUSH, ttlHost, s.address).Ok() && AllOk(before)
    requires w.b == base + RecsBytes(before)
    modifies w
    ensures AllOk(before + [Rec(s.HostLabels(), TYPE_A, CLASS_IN + CACHE_FLUSH, ttlHost, s.address)])
    ensures w.b == base + RecsBytes(before + [Rec(s.HostLabels(), TYPE_A, CLASS_IN + CACHE_FLUSH, ttlHost, s.address)])
  {
    hide RecBytes, RecsBytes, LabelsBytes, U16, U32, Split;
    RecordJoins(base, before, Rec(s.HostLabels(), TYPE_A, CLASS_IN + CACHE_FLUSH, ttlHost, s.address));
    var hostLabels := SplitName(s.hostName);
    var at := w.RecordHead(hostLabels, TYPE_A, CLASS_IN + CACHE_FLUSH, ttlHost);
    w.PutBytes(s.address);
    w.PatchLength(at);
  }

  /** Each record of a service is one the wire can carry. */
  lemma {:induction false} EachIsOk(s: Service, ttlService: nat, ttlHost: nat)
    requires s.Ok() && ttlService < 0x1_0000_0000 && ttlHost < 0x1_0000_0000
    ensures Rec(s.TypeLabels(), TYPE_PTR, CLASS_IN, ttlService, LabelsBytes(s.InstanceLabels())).Ok()
    ensures Rec(ENUMERATION, TYPE_PTR, CLASS_IN, ttlService, LabelsBytes(s.TypeLabels())).Ok()
    ensures SrvRec(s, ttlHost).Ok() && TxtRec(s, ttlService).Ok()
    ensures Rec(s.HostLabels(), TYPE_A, CLASS_IN + CACHE_FLUSH, ttlHost, s.address).Ok()
  {
    hide LabelsBytes, TxtBytes, Split;
    LabelsAreOk(s);
  }

  /** Write the records that are wanted, adding to the count of those in the message. */
  method AppendRecords(w: Writer, s: Service, ttlService: nat, ttlHost: nat,
                       ptr: bool, srv: bool, txt: bool, a: bool, before: nat) returns (count: nat)
    requires s.Ok() && ttlService < 0x1_0000_0000 && ttlHost < 0x1_0000_0000
    modifies w
    ensures AllOk(Recs(s, ttlService, ttlHost, ptr, srv, txt, a))
    ensures w.b == old(w.b) + RecsBytes(Recs(s, ttlService, ttlHost, ptr, srv, txt, a))
    ensures count == before + |Recs(s, ttlService, ttlHost, ptr, srv, txt, a)|
  {
    hide RecBytes, Rec.Ok, LabelsBytes, U16, U32, Split, SrvRec, TxtRec, Service.Ok;
    EachIsOk(s, ttlService, ttlHost);
    ghost var base, rs: seq<Rec> := w.b, [];
    assert w.b == base + RecsBytes(rs);
    count := before;
    var typeLabels := SplitName(s.typeName);
    var instanceLabels := [s.instance] + typeLabels;
    if ptr {
      PutNameRecord(w, base, rs, typeLabels, TYPE_PTR, ttlService, instanceLabels);
      rs := rs + [Rec(s.TypeLabels(), TYPE_PTR, CLASS_IN, ttlService, LabelsBytes(s.InstanceLabels()))];
      PutNameRecord(w, base, rs, ENUMERATION, TYPE_PTR, ttlService, typeLabels);
      rs := rs + [Rec(ENUMERATION, TYPE_PTR, CLASS_IN, ttlService, LabelsBytes(s.TypeLabels()))];
      count := count + 2;
    }
    assert rs == if ptr then PtrRecs(s, ttlService) else [];
    hide PtrRecs;
    if srv {
      PutSrvRecord(w, base, rs, s, ttlHost);
      rs := rs + [SrvRec(s, ttlHost)];
      count := count + 1;
    }
    if txt {
      PutTxtRecord(w, base, rs, s, ttlService);
      rs := rs + [TxtRec(s, ttlService)];
      count := count + 1;
    }
    if a && s.HasAddress() {
      PutAddressRecord(w, base, rs, s, ttlHost);
      rs := rs + [Rec(s.HostLabels(), TYPE_A, CLASS_IN + CACHE_FLUSH, ttlHost, s.address)];
      count := count + 1;
    }
    assert rs == Recs(s, ttlService, ttlHost, ptr, srv, txt, a);
  }

  /** An announcement, its count filled in last; a goodbye if the time to live is zero. */
  method BuildAnnouncement(s: Service, ttl: nat) returns (b: Bytes)
    requires s.Ok() && ttl < 0x1_0000_0000
    ensures b == Announcement(s, ttl)
  {
    hide RecsBytes, Service.Ok, Recs;
    var w := new Writer();
    w.PutU16(0);
    w.PutU16(FLAGS_RESPONSE);
    w.PutU16(0);
    var countAt := |w.b|;
    w.PutU16(0);
    w.PutU16(0);
    w.PutU16(0);
    ghost var header := w.b;
    var host := if ttl != 0 then TTL_HOST else 0;
    var count := AppendRecords(w, s, ttl, host, true, true, true, true, 0);
    RecsAreOk(s, ttl, host, true, true, true, true);
    ghost var rest := RecsBytes(AnnouncementRecs(s, ttl));
    w.b := w.b[countAt := count / 256];
    w.b := w.b[countAt + 1 := count % 256];
    b := w.b;
    assert b == HeaderBytes(count) + rest;
  }

  // ---------------------------------------------------------------------------
  // Reading
  // ---------------------------------------------------------------------------

  class Parser {
    const p: Bytes
    var at: nat

    constructor (p: Bytes)
      ensures this.p == p && at == 0
    {
      this.p := p;
      at := 0;
    }

    /** The next two bytes; past the end the cursor stays. */
    method ReadU16() returns (r: Option<nat>)
      modifies this
      ensures r == Get16(p, old(at)) && at == (if r.Some? then old(at) + 2 else old(at))
    {
      if at + 2 > |p| { return None; }
      var high: nat := p[at];
      r := Some(high * 256 + p[at + 1]);
      at := at + 2;
    }

    method ReadU32() returns (r: Option<nat>)
      modifies this
      ensures r == Get32(p, old(at)) && at == (if r.Some? then old(at) + 4 else old(at))
    {
      if at + 4 > |p| { return None; }
      var b0: nat, b1: nat, b2: nat := p[at], p[at + 1], p[at + 2];
      r := Some(((b0 * 256 + b1) * 256 + b2) * 256 + p[at + 3]);
      at := at + 4;
    }

    /** Read a name wherever it lies, following pointers; it ends behind its first pointer,
      * or behind its last byte if it has none. */
    method ReadNameAt(from: nat) returns (r: Option<Name>)
      ensures r == NameAt(p, from, 0, [])
    {
      hide NameAt;
      var here: nat, hops: nat, advance: nat := from, 0, 0;
      var out: Bytes, jumped := [], false;
      while true
        invariant hops <= MAX_HOPS
        invariant NameAt(p, from, 0, []).Some? <==> NameAt(p, here, hops, out).Some?
        invariant NameAt(p, from, 0, []).Some? ==>
                    NameAt(p, from, 0, []).value.text == NameAt(p, here, hops, out).value.text
                    && NameAt(p, from, 0, []).value.next == if jumped then advance else NameAt(p, here, hops, out).value.next
        decreases MAX_HOPS - hops, |p| - here
      {
        NameStep(p, here, hops, out);
        if here >= |p| { return None; }
        var len: nat := p[here];
        if len / 64 == 3 {
          if here + 1 >= |p| { return None; }
          var target := len % 64 * 256 + p[here + 1];
          if !jumped { advance, jumped := here + 2, true; }
          if hops + 1 > MAX_HOPS { return None; }
          here, hops := target, hops + 1;
        } else {
          if len / 64 != 0 { return None; }
          if len == 0 { return Some(Name(out, if jumped then advance else here + 1)); }
          if here + 1 + len > |p| { return None; }
          out := (if out == [] then [] else out + [DOT]) + p[here + 1..here + 1 + len];
          here := here + 1 + len;
        }
      }
    }

    /** A name at the cursor, which moves behind it. */
    method ReadName() returns (r: Option<Bytes>)
      modifies this
      ensures r == (match NameAt(p, old(at), 0, []) case None => None case Some(n) => Some(n.text))
      ensures r.Some? ==> at == NameAt(p, old(at), 0, []).value.next
    {
      var n := ReadNameAt(at);
      if n == None { return None; }
      at := n.value.next;
      r := Some(n.value.text);
    }

    method ReadOneQuestion() returns (r: Option<Question>)
      modifies this
      ensures r.Some? <==> ReadQuestion(p, old(at)).Some?
      ensures r.Some? ==> ReadQuestion(p, old(at)) == Some(Read(r.value, at))
    {
      hide NameAt, Get16;
      var name := ReadName();
      if name == None { return None; }
      var type_ := ReadU16();
      if type_ == None { return None; }
      var cls := ReadU16();
      if cls == None { return None; }
      r := Some(Question(name.value, type_.value, cls.value));
    }

    method ReadOneRecord() returns (r: Option<Record>)
      modifies this
      ensures r.Some? <==> ReadRecord(p, old(at)).Some?
      ensures r.Some? ==> ReadRecord(p, old(at)) == Some(Read(r.value, at))
    {
      hide NameAt, Get16, Get32;
      var name := ReadName();
      if name == None { return None; }
      var type_ := ReadU16();
      if type_ == None { return None; }
      var cls := ReadU16();
      if cls == None { return None; }
      var ttl := ReadU32();
      if ttl == None { return None; }
      var len := ReadU16();
      if len == None { return None; }
      if at + len.value > |p| { return None; }
      r := Some(Record(name.value, type_.value, cls.value, ttl.value, at, len.value));
      at := at + len.value;
    }

    method ReadAllQuestions(count: nat) returns (r: Option<seq<Question>>)
      modifies this
      ensures r.Some? <==> ReadQuestions(p, old(at), count, []).Some?
      ensures r.Some? ==> ReadQuestions(p, old(at), count, []) == Some(Read(r.value, at))
    {
      hide ReadQuestion;
      var qs: seq<Question>, i := [], 0;
      while i < count
        invariant i <= count && ReadQuestions(p, at, count - i, qs) == ReadQuestions(p, old(at), count, [])
      {
        var q := ReadOneQuestion();
        if q == None { return None; }
        qs := qs + [q.value];
        i := i + 1;
      }
      r := Some(qs);
    }

    method ReadAllRecords(count: nat) returns (r: Option<seq<Record>>)
      modifies this
      ensures r.Some? <==> ReadRecords(p, old(at), count, []).Some?
      ensures r.Some? ==> ReadRecords(p, old(at), count, []) == Some(Read(r.value, at))
    {
      hide ReadRecord;
      var rs: seq<Record>, i := [], 0;
      while i < count
        invariant i <= count && ReadRecords(p, at, count - i, rs) == ReadRecords(p, old(at), count, [])
      {
        var rec := ReadOneRecord();
        if rec == None { return None; }
        rs := rs + [rec.value];
        i := i + 1;
      }
      r := Some(rs);
    }

    /** The six numbers a message starts with: id, flags and four counts. */
    method ReadHeader() returns (r: Option<(nat, nat, nat)>)
      requires at == 0
      modifies this
      ensures r == if |p| < HEADER_BYTES then None
                   else Some((Get16(p, 2).value, Get16(p, 4).value,
                              Get16(p, 6).value + Get16(p, 8).value + Get16(p, 10).value))
      ensures r.Some? ==> at == HEADER_BYTES
    {
      var id := ReadU16();
      if id == None { return None; }
      var flags := ReadU16();
      if flags == None { return None; }
      var qd := ReadU16();
      if qd == None { return None; }
      var an := ReadU16();
      if an == None { return None; }
      var ns := ReadU16();
      if ns == None { return None; }
      var ar := ReadU16();
      if ar == None { return None; }
      r := Some((flags.value, qd.value, an.value + ns.value + ar.value));
    }
  }

  /** Read a whole message, whatever bytes it is. */
  method ReadMessage(p: Bytes) returns (r: Option<Message>)
    ensures r == ParseMessage(p)
  {
    hide Get16, ReadQuestions, ReadRecords;
    var parser := new Parser(p);
    var head := parser.ReadHeader();
    if head == None { return None; }
    var questions := parser.ReadAllQuestions(head.value.1);
    if questions == None { return None; }
    var records := parser.ReadAllRecords(head.value.2);
    if records == None { return None; }
    r := Some(Message(head.value.0, questions.value, records.value));
  }

  lemma TxtEnds()
    ensures forall m: map<Bytes, Bytes> :: ParseTxt([], m) == m
  {}

  // One string of the data, or the end of it.
  lemma {:induction false} TxtStep(p: Bytes, at: nat, end: nat, m: map<Bytes, Bytes>)
    requires at < end <= |p|
    ensures var n: nat := p[at];
            ParseTxt(p[at..end], m)
            == if at + 1 + n > end then m else ParseTxt(p[at + 1 + n..end], Take(p[at + 1..at + 1 + n], m))
  {
    hide Take;
    var d, n: nat := p[at..end], p[at];
    assert d[0] == p[at] && |d| == end - at;
    if at + 1 + n <= end {
      SliceOfSlice(p, at, end - at, 1, 1 + n);
      SliceOfSlice(p, at, end - at, 1 + n, end - at);
    }
  }

  /** The TXT map in the `len` bytes at `start`. */
  method ReadTxt(p: Bytes, start: nat, len: nat) returns (m: map<Bytes, Bytes>)
    requires start + len <= |p|
    ensures m == ParseTxt(p[start..start + len], map[])
  {
    hide FirstAt, ParseTxt;
    TxtEnds();
    m := map[];
    var at, end := start, start + len;
    while at < end
      invariant start <= at <= end && ParseTxt(p[at..end], m) == ParseTxt(p[start..end], map[])
    {
      var n: nat := p[at];
      TxtStep(p, at, end, m);
      at := at + 1;
      if at + n > end { break; }
      var entry := p[at..at + n];
      at := at + n;
      if entry == [] { continue; }
      var eq := FirstAt(entry, EQUALS);
      if eq == |entry| {
        m := m[entry := []];
      } else {
        m := m[entry[..eq] := entry[eq + 1..]];
      }
    }
    assert p[end..end] == [];
  }
}
