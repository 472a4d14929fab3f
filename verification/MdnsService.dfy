/** One service on the link: the records that announce it, its TXT map, and what a reader
  * of the announcement gets to know. */
module MdnsService {
  import opened Wrappers
  import opened Mdns

  // ---------------------------------------------------------------------------
  // TXT data
  // ---------------------------------------------------------------------------

  datatype Pair = Pair(key: Bytes, value: Bytes)

  function Entry(p: Pair): (r: Bytes)
    ensures r != []
  {
    p.key + [EQUALS] + p.value
  }

  /** An entry is cut to the 255 bytes its length can say. */
  function CutEntry(p: Pair): (r: Bytes)
    ensures 0 < |r| <= 255
  {
    if |Entry(p)| > 255 then Entry(p)[..255] else Entry(p)
  }

  function Strings(ps: seq<Pair>): Bytes {
    if ps == [] then []
    else
      var n: Byte := |CutEntry(ps[0])|;
      [n] + CutEntry(ps[0]) + Strings(ps[1..])
  }

  /** No data is one empty string, not nothing. */
  function TxtBytes(ps: seq<Pair>): (r: Bytes)
    ensures r != []
  {
    if ps == [] then [0] else Strings(ps)
  }

  /** Where a byte first occurs, or the length. */
  function FirstAt(b: Bytes, c: Byte): (i: nat)
    ensures i <= |b| && (i < |b| ==> b[i] == c) && forall k :: 0 <= k < i ==> b[k] != c
  {
    if b == [] || b[0] == c then 0 else 1 + FirstAt(b[1..], c)
  }

  /** One string of TXT data into the map: a key with no value is a key with an empty one. */
  function Take(entry: Bytes, m: map<Bytes, Bytes>): map<Bytes, Bytes> {
    if entry == [] then m
    else
      var eq := FirstAt(entry, EQUALS);
      if eq == |entry| then m[entry := []] else m[entry[..eq] := entry[eq + 1..]]
  }

  function ParseTxt(d: Bytes, m: map<Bytes, Bytes>): map<Bytes, Bytes>
    decreases |d|
  {
    if d == [] then m
    else
      var n: nat := d[0];
      if 1 + n > |d| then m else ParseTxt(d[1 + n..], Take(d[1..1 + n], m))
  }

  function MapOf(ps: seq<Pair>, m: map<Bytes, Bytes>): map<Bytes, Bytes>
    decreases |ps|
  {
    if ps == [] then m else MapOf(ps[1..], m[ps[0].key := ps[0].value])
  }

  /** A pair that a TXT string can carry: no equals sign in the key, and 255 bytes in all,
    * or a key of just that length without a value. */
  predicate Survives(key: Bytes, value: Bytes) {
    EQUALS !in key && (|key| + 1 + |value| <= 255 || (|key| == 255 && value == []))
  }

  lemma {:induction false} TakeSurvivor(p: Pair, m: map<Bytes, Bytes>)
    requires Survives(p.key, p.value)
    ensures Take(CutEntry(p), m) == m[p.key := p.value]
  {
    var e := CutEntry(p);
    if |Entry(p)| > 255 {
      assert e == p.key;
      assert forall k :: 0 <= k < |e| ==> e[k] != EQUALS;
    } else {
      assert e[|p.key|] == EQUALS;
      assert forall k :: 0 <= k < |p.key| ==> e[k] == p.key[k];
      assert FirstAt(e, EQUALS) == |p.key|;
      assert e[..|p.key|] == p.key && e[|p.key| + 1..] == p.value;
    }
  }

  lemma {:induction false} StringsReadBack(ps: seq<Pair>, m: map<Bytes, Bytes>)
    requires forall i :: 0 <= i < |ps| ==> Survives(ps[i].key, ps[i].value)
    ensures ParseTxt(Strings(ps), m) == MapOf(ps, m)
    decreases |ps|
  {
    hide CutEntry, Take, Survives;
    if ps != [] {
      var e, rest := CutEntry(ps[0]), Strings(ps[1..]);
      var d := Strings(ps);
      assert d[0] == |e| && d[1..1 + |e|] == e && d[1 + |e|..] == rest;
      TakeSurvivor(ps[0], m);
      StringsReadBack(ps[1..], m[ps[0].key := ps[0].value]);
    }
  }

  ghost predicate AllSurvive(m: map<Bytes, Bytes>) { forall k :: k in m ==> Survives(k, m[k]) }

  /** Whatever TXT data is read, every pair that comes out is one a string can carry. */
  lemma {:induction false} ReadPairsSurvive(d: Bytes, m: map<Bytes, Bytes>)
    requires AllSurvive(m)
    ensures AllSurvive(ParseTxt(d, m))
    decreases |d|
  {
    hide Survives, Take;
    if d != [] {
      var n: nat := d[0];
      if 1 + n <= |d| {
        TakenSurvives(d[1..1 + n], m);
        ReadPairsSurvive(d[1 + n..], Take(d[1..1 + n], m));
      }
    }
  }

  lemma {:induction false} TakenSurvives(entry: Bytes, m: map<Bytes, Bytes>)
    requires AllSurvive(m) && |entry| <= 255
    ensures AllSurvive(Take(entry, m))
  {
    if entry != [] {
      var eq := FirstAt(entry, EQUALS);
      if eq < |entry| { assert |entry[..eq]| + 1 + |entry[eq + 1..]| <= 255; }
      assert EQUALS !in entry[..eq];
      assert eq == |entry| ==> entry[..eq] == entry;
    }
  }

  predicate DistinctKeys(ps: seq<Pair>) { forall i, j :: 0 <= i < j < |ps| ==> ps[i].key != ps[j].key }

  lemma {:induction false} MapOfReads(ps: seq<Pair>, m: map<Bytes, Bytes>, i: nat)
    requires DistinctKeys(ps) && i < |ps|
    ensures ps[i].key in MapOf(ps, m) && MapOf(ps, m)[ps[i].key] == ps[i].value
    decreases |ps|
  {
    var rest, m2 := ps[1..], m[ps[0].key := ps[0].value];
    forall x, y | 0 <= x < y < |rest| ensures rest[x].key != rest[y].key { assert ps[x + 1].key != ps[y + 1].key; }
    if i == 0 {
      forall x | 0 <= x < |rest| ensures rest[x].key != ps[0].key { assert ps[0].key != ps[x + 1].key; }
      MapOfKeeps(rest, m2, ps[0].key);
    } else {
      MapOfReads(rest, m2, i - 1);
    }
  }

  lemma {:induction false} MapOfKeeps(ps: seq<Pair>, m: map<Bytes, Bytes>, key: Bytes)
    requires key in m && forall i :: 0 <= i < |ps| ==> ps[i].key != key
    ensures key in MapOf(ps, m) && MapOf(ps, m)[key] == m[key]
    decreases |ps|
  {
    if ps != [] {
      forall i | 0 <= i < |ps[1..]| ensures ps[1..][i].key != key { assert ps[i + 1].key != key; }
      MapOfKeeps(ps[1..], m[ps[0].key := ps[0].value], key);
    }
  }

  /** A TXT map comes back from its record exactly when every pair in it is one a string
    * can carry. */
  lemma {:induction false} TxtReadsBack(ps: seq<Pair>)
    requires DistinctKeys(ps)
    ensures ParseTxt(TxtBytes(ps), map[]) == MapOf(ps, map[])
            <==> forall i :: 0 <= i < |ps| ==> Survives(ps[i].key, ps[i].value)
  {
    hide Survives, Take, CutEntry, MapOf, Strings;
    if ps == [] {
      NoText();
    } else {
      if forall i :: 0 <= i < |ps| ==> Survives(ps[i].key, ps[i].value) { StringsReadBack(ps, map[]); }
      ReadPairsSurvive(TxtBytes(ps), map[]);
      if ParseTxt(TxtBytes(ps), map[]) == MapOf(ps, map[]) {
        forall i | 0 <= i < |ps| ensures Survives(ps[i].key, ps[i].value) { MapOfReads(ps, map[], i); }
      }
    }
  }

  /** A key that is an equals sign comes back as the value of an empty key. */
  lemma {:induction false} EqualsInKey()
    ensures var ps := [Pair([EQUALS], [])];
            DistinctKeys(ps) && ParseTxt(TxtBytes(ps), map[]) == map[[] := [EQUALS]] != MapOf(ps, map[])
  {
    var p := Pair([EQUALS], []);
    var d := TxtBytes([p]);
    assert CutEntry(p) == [EQUALS, EQUALS];
    assert [p][1..] == [] && Strings([]) == [];
    assert d == [2, EQUALS, EQUALS];
    assert d[1..3] == [EQUALS, EQUALS] && d[3..] == [];
    assert d[1..3][..0] == [] && d[1..3][1..] == [EQUALS];
    assert MapOf([p], map[]) == map[[EQUALS] := []];
    var none: Bytes := [];
    assert none in ParseTxt(d, map[]) && none !in MapOf([p], map[]);
  }

  lemma NoText()
    ensures ParseTxt([0], map[]) == map[] && MapOf([], map[]) == map[] && TxtBytes([]) == [0]
  {
    var d: Bytes := [0];
    assert d[1..1] == [] && d[1..] == [];
    assert Take([], map[]) == map[];
    assert ParseTxt([], map[]) == map[];
  }

  // ---------------------------------------------------------------------------
  // Announcements
  // ---------------------------------------------------------------------------

  const FLAGS_RESPONSE: nat := 0x8400

  function HeaderBytes(count: nat): (r: Bytes)
    requires count < 0x10000
    ensures |r| == HEADER_BYTES
  {
    U16(0) + U16(FLAGS_RESPONSE) + U16(0) + U16(count) + U16(0) + U16(0)
  }

  function Response(rs: seq<Rec>): Bytes
    requires |rs| < 0x10000 && forall i :: 0 <= i < |rs| ==> rs[i].Ok()
  {
    HeaderBytes(|rs|) + RecsBytes(rs)
  }

  lemma {:induction false} HeaderReadsBack(count: nat, post: Bytes)
    requires count < 0x10000
    ensures var b := HeaderBytes(count) + post;
            && Get16(b, 2) == Some(FLAGS_RESPONSE) && Get16(b, 4) == Some(0) && Get16(b, 6) == Some(count)
            && Get16(b, 8) == Some(0) && Get16(b, 10) == Some(0)
  {
    hide Get16, U16;
    var z, f, c := U16(0), U16(FLAGS_RESPONSE), U16(count);
    var b := HeaderBytes(count) + post;
    assert b == z + f + (z + c + z + z + post);
    assert b == (z + f) + z + (c + z + z + post);
    assert b == (z + f + z) + c + (z + z + post);
    assert b == (z + f + z + c) + z + (z + post);
    assert b == (z + f + z + c + z) + z + post;
    GetsBack16(z, FLAGS_RESPONSE, z + c + z + z + post);
    GetsBack16(z + f, 0, c + z + z + post);
    GetsBack16(z + f + z, count, z + z + post);
    GetsBack16(z + f + z + c, 0, z + post);
    GetsBack16(z + f + z + c + z, 0, post);
  }

  /** Any response the node builds parses, and yields exactly the records appended. */
  lemma {:induction false} ResponseReadsBack(rs: seq<Rec>)
    requires |rs| < 0x10000 && AllOk(rs)
    ensures ParseMessage(Response(rs)) == Some(Message(FLAGS_RESPONSE, [], FoundAll(rs, HEADER_BYTES)))
  {
    hide Get16, HeaderBytes, RecsBytes, ReadRecords, FoundAll, Rec.Ok;
    HeaderReadsBack(|rs|, RecsBytes(rs));
    RecordsReadBack(HeaderBytes(|rs|), rs, []);
    assert [] + FoundAll(rs, HEADER_BYTES) == FoundAll(rs, HEADER_BYTES);
  }

  /** A service: its type and host as dotted names, its instance as one label. */
  datatype Service = Service(typeName: Bytes, instance: Label, hostName: Bytes, port: nat, address: Bytes, txt: seq<Pair>) {
    function TypeLabels(): seq<Label> { Split(typeName) }
    function HostLabels(): seq<Label> { Split(hostName) }
    function InstanceLabels(): seq<Label> { [instance] + TypeLabels() }

    predicate HasAddress() { address != [0, 0, 0, 0] }

    predicate Ok() {
      && instance != [] && port < 0x10000 && |address| == 4
      && |LabelsBytes(InstanceLabels())| < 0x10000 && |LabelsBytes(HostLabels())| + 6 < 0x10000
      && |LabelsBytes(TypeLabels())| < 0x10000 && |TxtBytes(txt)| < 0x10000
    }
  }

  /** `_services._dns-sd._udp.local`, the enumeration of service types. */
  const ENUMERATION: seq<Label> := [
    [95, 115, 101, 114, 118, 105, 99, 101, 115],
    [95, 100, 110, 115, 45, 115, 100],
    [95, 117, 100, 112],
    [108, 111, 99, 97, 108]]

  function SrvBytes(s: Service): Bytes
    requires s.Ok()
  {
    U16(0) + U16(0) + U16(s.port) + LabelsBytes(s.HostLabels())
  }

  function PtrRecs(s: Service, ttlService: nat): seq<Rec> {
    [Rec(s.TypeLabels(), TYPE_PTR, CLASS_IN, ttlService, LabelsBytes(s.InstanceLabels())),
     Rec(ENUMERATION, TYPE_PTR, CLASS_IN, ttlService, LabelsBytes(s.TypeLabels()))]
  }

  function SrvRec(s: Service, ttlHost: nat): Rec
    requires s.Ok()
  {
    Rec(s.InstanceLabels(), TYPE_SRV, CLASS_IN + CACHE_FLUSH, ttlHost, SrvBytes(s))
  }

  function TxtRec(s: Service, ttlService: nat): Rec {
    Rec(s.InstanceLabels(), TYPE_TXT, CLASS_IN + CACHE_FLUSH, ttlService, TxtBytes(s.txt))
  }

  function ARecs(s: Service, ttlHost: nat): seq<Rec> {
    if s.HasAddress() then [Rec(s.HostLabels(), TYPE_A, CLASS_IN + CACHE_FLUSH, ttlHost, s.address)] else []
  }

  /** The records of a service, those that are wanted of the four kinds. */
  function Recs(s: Service, ttlService: nat, ttlHost: nat, ptr: bool, srv: bool, txt: bool, a: bool): seq<Rec>
    requires s.Ok()
  {
    (if ptr then PtrRecs(s, ttlService) else []) + (if srv then [SrvRec(s, ttlHost)] else [])
    + (if txt then [TxtRec(s, ttlService)] else []) + (if a then ARecs(s, ttlHost) else [])
  }

  lemma {:induction false} LabelsAreOk(s: Service)
    requires s.Ok()
    ensures forall i :: 0 <= i < |s.InstanceLabels()| ==> s.InstanceLabels()[i] != []
    ensures forall i :: 0 <= i < |ENUMERATION| ==> ENUMERATION[i] != []
  {
    assert forall i :: 0 < i < |s.InstanceLabels()| ==> s.InstanceLabels()[i] == s.TypeLabels()[i - 1];
  }

  lemma {:induction false} RecsAreOk(s: Service, ttlService: nat, ttlHost: nat, ptr: bool, srv: bool, txt: bool, a: bool)
    requires s.Ok() && ttlService < 0x1_0000_0000 && ttlHost < 0x1_0000_0000
    ensures AllOk(Recs(s, ttlService, ttlHost, ptr, srv, txt, a)) && |Recs(s, ttlService, ttlHost, ptr, srv, txt, a)| <= 5
  {
    hide LabelsBytes, TxtBytes, Split;
    LabelsAreOk(s);
    forall i | 0 <= i < |PtrRecs(s, ttlService)| ensures PtrRecs(s, ttlService)[i].Ok() {}
    assert SrvRec(s, ttlHost).Ok();
    assert TxtRec(s, ttlService).Ok();
    forall i | 0 <= i < |ARecs(s, ttlHost)| ensures ARecs(s, ttlHost)[i].Ok() {}
    hide Rec.Ok, PtrRecs, SrvRec, TxtRec, ARecs;
    PtrCount(s, ttlService, ttlHost);
  }

  lemma PtrCount(s: Service, ttlService: nat, ttlHost: nat)
    ensures |PtrRecs(s, ttlService)| == 2 && |ARecs(s, ttlHost)| <= 1
  {}

  function AnnouncementRecs(s: Service, ttl: nat): seq<Rec>
    requires s.Ok()
  {
    Recs(s, ttl, if ttl != 0 then TTL_HOST else 0, true, true, true, true)
  }

  function Announcement(s: Service, ttl: nat): Bytes
    requires s.Ok() && ttl < 0x1_0000_0000
  {
    RecsAreOk(s, ttl, if ttl != 0 then TTL_HOST else 0, true, true, true, true);
    Response(AnnouncementRecs(s, ttl))
  }

  /** A goodbye is the announcement with every time to live zero. */
  lemma {:induction false} GoodbyeWithdrawsAll(s: Service, ttl: nat)
    requires s.Ok()
    ensures |AnnouncementRecs(s, 0)| == |AnnouncementRecs(s, ttl)|
    ensures forall i :: 0 <= i < |AnnouncementRecs(s, ttl)| ==>
              AnnouncementRecs(s, 0)[i] == AnnouncementRecs(s, ttl)[i].(ttl := 0)
  {}

  // ---------------------------------------------------------------------------
  // What a reader gets to know
  // ---------------------------------------------------------------------------

  /** A name written as record data is read from where the data lies. */
  lemma {:induction false} NameInData(b: Bytes, at: nat, len: nat, ls: seq<Label>)
    requires at + len <= |b| && b[at..at + len] == LabelsBytes(ls)
    requires forall i :: 0 <= i < |ls| ==> ls[i] != []
    ensures NameAt(b, at, 0, []) == Some(Name(Dotted(ls), at + len))
  {
    hide NameAt, LabelsBytes, JoinTo;
    assert b == b[..at] + LabelsBytes(ls) + b[at + len..];
    NameReadsBack(b[..at], ls, b[at + len..], 0, []);
  }

  lemma {:induction false} NumberInData(b: Bytes, at: nat, v: nat)
    requires v < 0x10000 && at + 2 <= |b| && b[at..at + 2] == U16(v)
    ensures Get16(b, at) == Some(v)
  {
    hide Get16, U16;
    assert b == b[..at] + U16(v) + b[at + 2..];
    GetsBack16(b[..at], v, b[at + 2..]);
  }

  /** The port and the host of a service, from the data of its SRV record. */
  lemma {:induction false} SrvReadsBack(b: Bytes, at: nat, s: Service)
    requires s.Ok() && at + |SrvBytes(s)| <= |b| && b[at..at + |SrvBytes(s)|] == SrvBytes(s)
    ensures |SrvBytes(s)| == 6 + |LabelsBytes(s.HostLabels())|
    ensures Get16(b, at) == Some(0) && Get16(b, at + 2) == Some(0) && Get16(b, at + 4) == Some(s.port)
    ensures NameAt(b, at + 6, 0, []) == Some(Name(Dotted(s.HostLabels()), at + |SrvBytes(s)|))
  {
    hide NameAt, LabelsBytes, Get16, U16, Split, JoinTo, Service.Ok;
    SrvFields(s);
    var d, host := SrvBytes(s), LabelsBytes(s.HostLabels());
    SliceOfSlice(b, at, |d|, 0, 2);
    SliceOfSlice(b, at, |d|, 2, 4);
    SliceOfSlice(b, at, |d|, 4, 6);
    SliceOfSlice(b, at, |d|, 6, |d|);
    NumberInData(b, at, 0);
    NumberInData(b, at + 2, 0);
    NumberInData(b, at + 4, s.port);
    NameInData(b, at + 6, |host|, s.HostLabels());
  }

  lemma {:induction false} SliceOfSlice(b: Bytes, at: nat, len: nat, i: nat, j: nat)
    requires at + len <= |b| && i <= j <= len
    ensures b[at + i..at + j] == b[at..at + len][i..j]
    ensures i == 0 ==> b[at..at + j] == b[at..at + len][..j]
    ensures j == len ==> b[at + i..at + len] == b[at..at + len][i..]
  {
    var w := b[at..at + len];
    assert forall k :: i <= k < j ==> w[k] == b[at + k];
    assert b[at + i..at + j] == w[i..j];
    assert w[0..j] == w[..j] && w[i..len] == w[i..];
  }

  lemma {:induction false} SrvFields(s: Service)
    requires s.Ok()
    ensures var d := SrvBytes(s);
            && s.port < 0x10000 && |d| == 6 + |LabelsBytes(s.HostLabels())|
            && d[..2] == U16(0) && d[2..4] == U16(0) && d[4..6] == U16(s.port) && d[6..] == LabelsBytes(s.HostLabels())
  {
    hide LabelsBytes, U16, Split;
  }

  /** A record of an announcement as a reader finds it. */
  ghost predicate Shows(b: Bytes, f: Record, r: Rec) {
    && f.name == Dotted(r.name) && f.type_ == r.type_ && f.cls == r.cls && f.ttl == r.ttl
    && f.rdataAt + f.rdataLen <= |b| && b[f.rdataAt..f.rdataAt + f.rdataLen] == r.rdata
  }

  /** Parsing any announcement succeeds and shows exactly the records of the service. */
  lemma {:induction false} AnnouncementParses(s: Service, ttl: nat)
    requires s.Ok() && ttl < 0x1_0000_0000
    ensures ParseMessage(Announcement(s, ttl)).Some?
    ensures var m := ParseMessage(Announcement(s, ttl)).value;
            && m.flags == FLAGS_RESPONSE && m.questions == [] && |m.records| == |AnnouncementRecs(s, ttl)|
            && forall i :: 0 <= i < |m.records| ==> Shows(Announcement(s, ttl), m.records[i], AnnouncementRecs(s, ttl)[i])
  {
    hide AnnouncementRecs, HeaderBytes, RecsBytes, FoundAll, ParseMessage, Dotted;
    var host := if ttl != 0 then TTL_HOST else 0;
    RecsAreOk(s, ttl, host, true, true, true, true);
    var rs := AnnouncementRecs(s, ttl);
    assert AllOk(rs) && |rs| <= 5 by { RecsAre(s, ttl); }
    ResponseReadsBack(rs);
    var b := Announcement(s, ttl);
    assert HeaderBytes(|rs|) + RecsBytes(rs) + [] == b;
    forall i | 0 <= i < |rs| ensures Shows(b, FoundAll(rs, HEADER_BYTES)[i], rs[i]) {
      DataIsThere(HeaderBytes(|rs|), rs, [], i);
    }
  }

  lemma {:induction false} RecsAre(s: Service, ttl: nat)
    requires s.Ok()
    ensures AnnouncementRecs(s, ttl) == Recs(s, ttl, if ttl != 0 then TTL_HOST else 0, true, true, true, true)
  {
    hide Recs;
  }

  /** The records of an announcement, one by one. */
  lemma {:induction false} FiveRecords(s: Service, ttl: nat)
    requires s.Ok()
    ensures var rs, host := AnnouncementRecs(s, ttl), if ttl != 0 then TTL_HOST else 0;
            && |rs| == (if s.HasAddress() then 5 else 4)
            && rs[0] == Rec(s.TypeLabels(), TYPE_PTR, CLASS_IN, ttl, LabelsBytes(s.InstanceLabels()))
            && rs[1] == Rec(ENUMERATION, TYPE_PTR, CLASS_IN, ttl, LabelsBytes(s.TypeLabels()))
            && rs[2] == SrvRec(s, host) && rs[3] == TxtRec(s, ttl)
            && (s.HasAddress() ==> rs[4] == Rec(s.HostLabels(), TYPE_A, CLASS_IN + CACHE_FLUSH, host, s.address))
  {
    hide LabelsBytes, Split, SrvRec, TxtRec, Service.Ok;
  }

  /** From an announcement a reader learns the service: the type leads to the instance and
    * the enumeration to the type; the instance to its port and host and to its TXT map,
    * exactly when every pair of it fits a string; and the host to its address. */
  lemma {:induction false} ServiceIsLearnt(s: Service, ttl: nat)
    requires s.Ok() && ttl < 0x1_0000_0000 && DistinctKeys(s.txt)
    ensures ParseMessage(Announcement(s, ttl)).Some?
    ensures var b := Announcement(s, ttl);
            var rs := ParseMessage(b).value.records;
            && |rs| == (if s.HasAddress() then 5 else 4)
            && rs[0].name == Dotted(s.TypeLabels()) && rs[0].type_ == TYPE_PTR && rs[0].ttl == ttl
            && NameAt(b, rs[0].rdataAt, 0, []) == Some(Name(Dotted(s.InstanceLabels()), rs[0].rdataAt + rs[0].rdataLen))
            && rs[1].name == Dotted(ENUMERATION) && rs[1].type_ == TYPE_PTR
            && NameAt(b, rs[1].rdataAt, 0, []) == Some(Name(Dotted(s.TypeLabels()), rs[1].rdataAt + rs[1].rdataLen))
    ensures var b := Announcement(s, ttl);
            var rs := ParseMessage(b).value.records;
            && rs[2].name == Dotted(s.InstanceLabels()) && rs[2].type_ == TYPE_SRV
            && Get16(b, rs[2].rdataAt + 4) == Some(s.port)
            && NameAt(b, rs[2].rdataAt + 6, 0, []) == Some(Name(Dotted(s.HostLabels()), rs[2].rdataAt + rs[2].rdataLen))
    ensures var b := Announcement(s, ttl);
            var rs := ParseMessage(b).value.records;
            && rs[3].name == Dotted(s.InstanceLabels()) && rs[3].type_ == TYPE_TXT
            && rs[3].rdataAt + rs[3].rdataLen <= |b|
            && (ParseTxt(b[rs[3].rdataAt..rs[3].rdataAt + rs[3].rdataLen], map[]) == MapOf(s.txt, map[])
                <==> forall i :: 0 <= i < |s.txt| ==> Survives(s.txt[i].key, s.txt[i].value))
            && (s.HasAddress() ==>
                  rs[4].name == Dotted(s.HostLabels()) && rs[4].type_ == TYPE_A && rs[4].rdataAt + 4 <= |b|
                  && b[rs[4].rdataAt..rs[4].rdataAt + 4] == s.address)
  {
    hide NameAt, LabelsBytes, Get16, Split, Dotted, ParseMessage, Announcement, AnnouncementRecs;
    hide ParseTxt, MapOf, TxtBytes, Survives, SrvBytes;
    var b := Announcement(s, ttl);
    AnnouncementParses(s, ttl);
    FiveRecords(s, ttl);
    LabelsAreOk(s);
    var rs, wanted := ParseMessage(b).value.records, AnnouncementRecs(s, ttl);
    assert forall i :: 0 <= i < |rs| ==> Shows(b, rs[i], wanted[i]);
    NameInData(b, rs[0].rdataAt, rs[0].rdataLen, s.InstanceLabels());
    NameInData(b, rs[1].rdataAt, rs[1].rdataLen, s.TypeLabels());
    SrvReadsBack(b, rs[2].rdataAt, s);
    TxtReadsBack(s.txt);
  }

  /** The labels a dotted name is split into join to it again. */
  lemma {:induction false} NameIsItself(name: Bytes)
    requires NoEmptyLabel(name) && ShortLabels(Split(name))
    ensures Dotted(Split(name)) == name
  {
    hide LabelsBytes, NameAt, NoEmptyLabel, Split;
    DottedNameReadsBack([], name, []);
    NameReadsBack([], Split(name), [], 0, []);
  }

  /** The instance reads as its label, a dot, and the type; the label may itself hold dots. */
  lemma {:induction false} InstanceNameIs(s: Service)
    requires s.Ok() && |s.instance| <= 63 && s.typeName != []
    requires NoEmptyLabel(s.typeName) && ShortLabels(Split(s.typeName))
    ensures Dotted(s.InstanceLabels()) == s.instance + [DOT] + s.typeName
  {
    hide NoEmptyLabel, Cut, SplitFrom;
    var name := s.typeName;
    JoinStep([], s.instance, s.TypeLabels());
    assert [] + s.instance == s.instance;
    FirstIsNoDot(name);
    SplitStarts(name);
    SplitJoins(s.instance, [name[0]], name[1..]);
  }

  lemma FirstIsNoDot(name: Bytes)
    requires NoEmptyLabel(name) && name != []
    ensures name[0] != DOT
  {}
}
