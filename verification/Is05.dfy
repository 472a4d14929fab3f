/** The sender's side of an AMWA IS-05 connection: what is staged, what is active, and how
  * a PATCH of the staged parameters moves between them. */
module Is05 {
  import opened Wrappers
  import opened Json
  import opened JsonRoundTrip
  import JsonText

  // ---------------------------------------------------------------------------
  // Names on the wire
  // ---------------------------------------------------------------------------

  const MASTER_ENABLE: Text := [109, 97, 115, 116, 101, 114, 95, 101, 110, 97, 98, 108, 101]
  const RECEIVER_ID: Text := [114, 101, 99, 101, 105, 118, 101, 114, 95, 105, 100]
  const TRANSPORT_PARAMS: Text := [116, 114, 97, 110, 115, 112, 111, 114, 116, 95, 112, 97, 114, 97, 109, 115]
  const ACTIVATION: Text := [97, 99, 116, 105, 118, 97, 116, 105, 111, 110]
  const MODE: Text := [109, 111, 100, 101]
  const REQUESTED_TIME: Text := [114, 101, 113, 117, 101, 115, 116, 101, 100, 95, 116, 105, 109, 101]
  const ACTIVATION_TIME: Text := [97, 99, 116, 105, 118, 97, 116, 105, 111, 110, 95, 116, 105, 109, 101]
  const SOURCE_IP: Text := [115, 111, 117, 114, 99, 101, 95, 105, 112]
  const DESTINATION_IP: Text := [100, 101, 115, 116, 105, 110, 97, 116, 105, 111, 110, 95, 105, 112]
  const SOURCE_PORT: Text := [115, 111, 117, 114, 99, 101, 95, 112, 111, 114, 116]
  const DESTINATION_PORT: Text := [100, 101, 115, 116, 105, 110, 97, 116, 105, 111, 110, 95, 112, 111, 114, 116]
  const RTP_ENABLED: Text := [114, 116, 112, 95, 101, 110, 97, 98, 108, 101, 100]
  const IMMEDIATE: Text := [97, 99, 116, 105, 118, 97, 116, 101, 95, 105, 109, 109, 101, 100, 105, 97, 116, 101]

  // ---------------------------------------------------------------------------
  // Transports
  // ---------------------------------------------------------------------------

  type Port = p: nat | p < 0x10000

  datatype Leg = Leg(sourceIp: Text, destIp: Text, destPort: Port, sourcePort: Port)

  /** What a transport says besides, which no request changes. */
  datatype Carried = Carried(ttl: int, ssrc: nat, payloadType: int, formatText: Text,
                             interfaceNameA: Text, interfaceNameB: Text, macA: Text, macB: Text,
                             frameRateNum: int, frameRateDen: int)

  /** A sender's transport; leg B counts only if it is redundant. */
  datatype Transport = Transport(active: bool, redundant: bool, legA: Leg, legB: Leg, carried: Carried) {
    function Legs(): nat { if redundant then 2 else 1 }
  }

  const DEFAULT: Transport :=
    Transport(false, false,
              Leg([], [50, 51, 57, 46, 49, 46, 49, 46, 49], 40000, 5004),
              Leg([], [50, 51, 57, 46, 50, 46, 49, 46, 49], 40000, 5004),
              Carried(8, 0x20220006, 98, [], [], [], [], [], 25, 1))

  // ---------------------------------------------------------------------------
  // What a request says
  // ---------------------------------------------------------------------------

  /** What a request says about one leg; nothing where it says nothing it is heeded for. */
  datatype LegPatch = LegPatch(destIp: Option<Text>, destPort: Option<Port>, sourcePort: Option<Port>,
                               rtp: Option<bool>, sourceIp: Option<Text>)

  const NOTHING: LegPatch := LegPatch(None, None, None, None, None)

  datatype Fields = Fields(enable: Option<bool>, receiver: Option<Text>, legs: seq<LegPatch>) {
    function Leg(i: nat): LegPatch { if i < |legs| then legs[i] else NOTHING }
  }

  datatype Order = Order(fields: Fields, mode: Text)

  /** The members of an object; whatever else a value is, it has none. */
  function MembersOf(j: Json): seq<Member> { if j.Obj? then j.members else [] }

  /** A boolean as the original reads one: a number stands for whether it is not zero. */
  function BoolOf(j: Json): Option<bool> {
    match j
    case Bool(b) => Some(b)
    case Int(i) => Some(i != 0)
    case _ => None
  }

  function TextOf(j: Json): Text { if j.Str? then j.s else [] }

  /** A port as the original reads one: cut to sixteen bits, whatever the number. */
  function PortOf(j: Json, whole: Text -> Int64): Option<Port> {
    match j
    case Int(i) => Some(Low16(i))
    case Real(token) => Some(Low16(whole(token)))
    case _ => None
  }

  function Low16(i: int): Port { i % 0x10000 }

  /** A port is taken as it was sent exactly if it has sixteen bits; otherwise it is cut to
    * them, not refused: 70000 is taken as 4464. */
  lemma PortIsCut(i: Int64, whole: Text -> Int64)
    ensures PortOf(Int(i), whole).Some?
    ensures PortOf(Int(i), whole).value as int == i <==> 0 <= i < 0x10000
    ensures PortOf(Int(70000), whole) == Some(4464)
  {}

  function LegOf(p: Json, whole: Text -> Int64): LegPatch {
    var ms := MembersOf(p);
    LegPatch(
      if At(ms, DESTINATION_IP).Str? then Some(At(ms, DESTINATION_IP).s) else None,
      PortOf(At(ms, DESTINATION_PORT), whole),
      PortOf(At(ms, SOURCE_PORT), whole),
      BoolOf(At(ms, RTP_ENABLED)),
      if At(ms, SOURCE_IP) == Null then None else Some(TextOf(At(ms, SOURCE_IP))))
  }

  function LegsOf(params: seq<Json>, whole: Text -> Int64): (r: seq<LegPatch>)
    ensures |r| == |params|
  {
    seq(|params|, i requires 0 <= i < |params| => LegOf(params[i], whole))
  }

  /** The mode of the activation asked for; empty if none is. */
  function ModeOf(body: seq<Member>): Text {
    TextOf(At(MembersOf(At(body, ACTIVATION)), MODE))
  }

  /** What a body says, or nothing if it cannot be understood. */
  function Decode(text: Text, whole: Text -> Int64): Option<Order> {
    match Parse(text)
    case Fail(_, _) => None
    case Got(body, _) => if body.Obj? then OrderOf(body.members, whole) else None
  }

  function OrderOf(body: seq<Member>, whole: Text -> Int64): Option<Order> {
    var params := At(body, TRANSPORT_PARAMS);
    if Has(body, TRANSPORT_PARAMS) && !params.Arr? then None
    else
      Some(Order(Fields(BoolOf(At(body, MASTER_ENABLE)),
                        if Has(body, RECEIVER_ID) then Some(TextOf(At(body, RECEIVER_ID))) else None,
                        LegsOf(if params.Arr? then params.items else [], whole)),
                 ModeOf(body)))
  }

  // ---------------------------------------------------------------------------
  // What it does
  // ---------------------------------------------------------------------------

  function Put<T>(o: Option<T>, v: T): T { if o.Some? then o.value else v }

  function PatchLeg(l: Leg, p: LegPatch): Leg {
    l.(destIp := Put(p.destIp, l.destIp), destPort := Put(p.destPort, l.destPort), sourcePort := Put(p.sourcePort, l.sourcePort))
  }

  /** A source address may be named only if it is the one there is, or there is none. */
  predicate SourceAllowed(l: Leg, p: LegPatch) {
    p.sourceIp.Some? && l.sourceIp != [] ==> p.sourceIp.value == l.sourceIp
  }

  /** A transport with its enable and receiver, as a request finds or leaves them. */
  datatype Base = Base(want: Transport, enable: bool, receiver: Text)

  predicate Acceptable(f: Fields, b: Base) {
    |f.legs| <= b.want.Legs() && SourceAllowed(b.want.legA, f.Leg(0)) && SourceAllowed(b.want.legB, f.Leg(1))
  }

  /** The transport with what a request says about its legs; leg B's word on being active
    * comes after leg A's. */
  function PatchedWant(f: Fields, want: Transport): Transport {
    want.(legA := PatchLeg(want.legA, f.Leg(0)), legB := PatchLeg(want.legB, f.Leg(1)),
          active := Put(f.Leg(1).rtp, Put(f.Leg(0).rtp, want.active)))
  }

  function Apply(f: Fields, b: Base): Option<Base> {
    if !Acceptable(f, b) then None
    else Some(Base(PatchedWant(f, b.want), Put(f.enable, b.enable), Put(f.receiver, b.receiver)))
  }

  /** The state of the connection: what is staged, if anything is, and what is active. */
  datatype Conn = Conn(staged: Transport, stagedValid: bool, stagedMasterEnable: bool, stagedReceiverId: Text,
                       activeReceiverId: Text, masterEnable: bool)

  /** What a request starts from: what is staged, or else what is live. */
  function Start(c: Conn, live: Transport): Base {
    if c.stagedValid then Base(c.staged, c.stagedMasterEnable, c.stagedReceiverId)
    else Base(live, live.active, c.stagedReceiverId)
  }

  /** What became of a request: the state, the answer, and the transport handed to the
    * engine, if one was. */
  datatype Outcome = Outcome(conn: Conn, status: nat, handed: Option<Transport>)

  /** A request carried out, the engine taking what it is handed or not. */
  function Patched(c: Conn, text: Text, live: Transport, applies: bool, whole: Text -> Int64): Outcome {
    match Decode(text, whole)
    case None => Outcome(c, 400, None)
    case Some(o) =>
      match Apply(o.fields, Start(c, live))
      case None => Outcome(c, 400, None)
      case Some(b) =>
        if o.mode == [] then
          Outcome(Conn(b.want, true, b.enable, b.receiver, c.activeReceiverId, c.masterEnable), 200, None)
        else if o.mode != IMMEDIATE then Outcome(c, 501, None)
        else if !applies then Outcome(c, 500, Some(b.want.(active := b.enable)))
        else Outcome(Conn(DEFAULT, false, b.enable, [], b.receiver, b.enable), 200, Some(b.want.(active := b.enable)))
  }

  /** The state following whether the engine transmits. */
  function Synced(c: Conn, live: Transport): Conn {
    c.(masterEnable := live.active, stagedMasterEnable := if c.stagedValid then c.stagedMasterEnable else live.active)
  }

  // ---------------------------------------------------------------------------
  // Single requests
  // ---------------------------------------------------------------------------

  /** A request that is refused changes nothing, staged or active; one that only stages
    * changes nothing active; and nothing but an activation reaches the engine. */
  lemma {:induction false} RefusedChangesNothing(c: Conn, text: Text, live: Transport, applies: bool, whole: Text -> Int64)
    ensures var r := Patched(c, text, live, applies, whole);
            && r.status in {200, 400, 500, 501}
            && (r.status != 200 ==> r.conn == c)
            && (r.status == 200 && r.handed == None ==>
                  r.conn.stagedValid && r.conn.activeReceiverId == c.activeReceiverId && r.conn.masterEnable == c.masterEnable)
            && (r.status == 200 && r.handed != None ==>
                  !r.conn.stagedValid && r.conn.masterEnable == r.handed.value.active == r.conn.stagedMasterEnable)
            && (r.handed != None <==> r.status == 500 || (r.status == 200 && !r.conn.stagedValid))
  {
    hide Decode, Apply;
  }

  /** Whatever a request says, it cannot move a sender to another interface, change how many
    * legs it has, or touch a leg it has no parameters for. */
  lemma {:induction false} OnlyNamedPartsChange(c: Conn, text: Text, live: Transport, applies: bool, whole: Text -> Int64)
    requires Patched(c, text, live, applies, whole).handed != None
    ensures var from, t := Start(c, live).want, Patched(c, text, live, applies, whole).handed.value;
            && t.redundant == from.redundant && t.carried == from.carried
            && t.legA.sourceIp == from.legA.sourceIp && t.legB.sourceIp == from.legB.sourceIp
            && (!from.redundant ==> t.legB == from.legB)
            && (|Decode(text, whole).value.fields.legs| == 0 ==> t == from.(active := t.active))
  {
    hide Decode;
  }

  /** With nothing staged, a request that leaves out the enable cannot turn a running sender
    * off, or a stopped one on, however stale the enable that was staged last. */
  lemma {:induction false} OmittedEnableNeverFlips(c: Conn, text: Text, body: Json, live: Transport,
                                                   applies: bool, whole: Text -> Int64)
    requires !c.stagedValid && Parse(text) == Got(body, []) && body.Obj? && !Has(body.members, MASTER_ENABLE)
    requires Patched(c, text, live, applies, whole).handed != None
    ensures Patched(c, text, live, applies, whole).handed.value.active == live.active
  {
    hide Parse, LegsOf, ModeOf, Acceptable, Has;
    Absent(body.members, MASTER_ENABLE);
  }

  lemma {:induction false} Absent(ms: seq<Member>, key: Text)
    requires !Has(ms, key)
    ensures At(ms, key) == Null
  {
    if ms != [] {
      assert ms[0].key != key;
      forall i | 0 <= i < |ms[1..]| ensures ms[1..][i].key != key { assert ms[i + 1].key != key; }
      Absent(ms[1..], key);
    }
  }

  predicate SameButRtp(f: Fields, g: Fields) {
    f.enable == g.enable && f.receiver == g.receiver && |f.legs| == |g.legs|
    && f.Leg(0).(rtp := None) == g.Leg(0).(rtp := None) && f.Leg(1).(rtp := None) == g.Leg(1).(rtp := None)
  }

  /** Enabling or disabling RTP on a leg has no say in an activation: the enable decides. */
  lemma {:induction false} RtpHasNoSay(c: Conn, text: Text, other: Text, live: Transport, applies: bool, whole: Text -> Int64)
    requires Decode(text, whole).Some? && Decode(other, whole).Some?
    requires Decode(text, whole).value.mode == IMMEDIATE == Decode(other, whole).value.mode
    requires SameButRtp(Decode(text, whole).value.fields, Decode(other, whole).value.fields)
    ensures Patched(c, text, live, applies, whole) == Patched(c, other, live, applies, whole)
  {
    hide Decode, Fields.Leg;
  }

  // ---------------------------------------------------------------------------
  // Merging requests
  // ---------------------------------------------------------------------------

  /** The later word where there is one. */
  function Over<T>(later: Option<T>, earlier: Option<T>): Option<T> { if later.Some? then later else earlier }

  function MergeLeg(f: LegPatch, g: LegPatch): LegPatch {
    LegPatch(Over(g.destIp, f.destIp), Over(g.destPort, f.destPort), Over(g.sourcePort, f.sourcePort),
             Over(g.rtp, f.rtp), Over(g.sourceIp, f.sourceIp))
  }

  /** Two requests in one, field by field, the later overriding the earlier. */
  function Merge(f: Fields, g: Fields): (r: Fields) {
    var n := if |f.legs| > |g.legs| then |f.legs| else |g.legs|;
    Fields(Over(g.enable, f.enable), Over(g.receiver, f.receiver),
           seq(n, i requires 0 <= i < n => MergeLeg(f.Leg(i), g.Leg(i))))
  }

  /** Alike but for whether the transport says it is active. */
  predicate Alike(b: Base, c: Base) {
    b.enable == c.enable && b.receiver == c.receiver && b.want.(active := false) == c.want.(active := false)
  }

  lemma {:induction false} ApplyAlike(f: Fields, b: Base, c: Base)
    requires Alike(b, c)
    ensures Apply(f, b).Some? <==> Apply(f, c).Some?
    ensures Apply(f, b).Some? ==> Alike(Apply(f, b).value, Apply(f, c).value)
  {
    hide Fields.Leg;
  }

  lemma {:induction false} MergedLeg(f: Fields, g: Fields, i: nat)
    ensures Merge(f, g).Leg(i) == MergeLeg(f.Leg(i), g.Leg(i))
  {}

  lemma {:induction false} MergedLegs(f: Fields, g: Fields)
    ensures var m := Merge(f, g);
            && m.enable == Over(g.enable, f.enable) && m.receiver == Over(g.receiver, f.receiver)
            && (|m.legs| == |f.legs| || |m.legs| == |g.legs|)
            && m.Leg(0) == MergeLeg(f.Leg(0), g.Leg(0)) && m.Leg(1) == MergeLeg(f.Leg(1), g.Leg(1))
  {
    hide MergeLeg, Fields.Leg;
    MergedLeg(f, g, 0);
    MergedLeg(f, g, 1);
  }

  /** One request after another does what the two in one do. */
  lemma {:induction false} ApplyMerged(f: Fields, g: Fields, b: Base)
    requires Apply(f, b).Some? && Apply(g, Apply(f, b).value).Some?
    ensures Apply(Merge(f, g), b).Some?
    ensures Alike(Apply(Merge(f, g), b).value, Apply(g, Apply(f, b).value).value)
  {
    hide Merge, Fields.Leg;
    MergedLegs(f, g);
  }

  // ---------------------------------------------------------------------------
  // Writing a request
  // ---------------------------------------------------------------------------

  function BoolJson(o: Option<bool>): Json { if o.Some? then Bool(o.value) else Null }

  function TextJson(o: Option<Text>): Json { if o.Some? then Str(o.value) else Null }

  function PortJson(o: Option<Port>): Json { if o.Some? then Int(o.value) else Null }

  function LegMembers(l: LegPatch): (r: seq<Member>)
    ensures |r| == 5
  {
    [Member(SOURCE_IP, TextJson(l.sourceIp)), Member(DESTINATION_IP, TextJson(l.destIp)),
     Member(SOURCE_PORT, PortJson(l.sourcePort)), Member(DESTINATION_PORT, PortJson(l.destPort)),
     Member(RTP_ENABLED, BoolJson(l.rtp))]
  }

  function ParamsJson(legs: seq<LegPatch>): (r: seq<Json>)
    ensures |r| == |legs|
  {
    seq(|legs|, i requires 0 <= i < |legs| => Obj(LegMembers(legs[i])))
  }

  function ReceiverMember(o: Option<Text>): seq<Member> {
    if o.Some? then [Member(RECEIVER_ID, Str(o.value))] else []
  }

  function BodyMembers(f: Fields, mode: Json): seq<Member> {
    [Member(MASTER_ENABLE, BoolJson(f.enable)), Member(ACTIVATION, Obj([Member(MODE, mode)])),
     Member(TRANSPORT_PARAMS, Arr(ParamsJson(f.legs)))] + ReceiverMember(f.receiver)
  }

  /** A request in one body: whatever a merge of requests says can be sent as one. */
  function Encode(f: Fields, mode: Text, style: Style): Text {
    BodyIsPlain(f, Str(mode));
    Dump(Obj(BodyMembers(f, Str(mode))), style)
  }

  /** Values that print and read back as themselves, at a depth of nesting. */
  predicate Plain(j: Json, depth: nat) { NoReals(j) && Within(j, depth) && DistinctKeys(j) }

  predicate Leaf(j: Json) { j.Null? || j.Bool? || j.Int? || j.Str? }

  lemma {:induction false} PlainObj(ms: seq<Member>, depth: nat)
    requires depth <= MAX_DEPTH && forall i :: 0 <= i < |ms| ==> Plain(ms[i].value, depth + 1)
    requires forall i, k :: 0 <= i < k < |ms| ==> ms[i].key != ms[k].key
    ensures Plain(Obj(ms), depth)
  {}

  lemma {:induction false} PlainArr(items: seq<Json>, depth: nat)
    requires depth <= MAX_DEPTH && forall i :: 0 <= i < |items| ==> Plain(items[i], depth + 1)
    ensures Plain(Arr(items), depth)
  {}

  lemma {:induction false} PlainLeaves(ms: seq<Member>, depth: nat)
    requires depth < MAX_DEPTH && forall i :: 0 <= i < |ms| ==> Leaf(ms[i].value)
    requires forall i, k :: 0 <= i < k < |ms| ==> ms[i].key != ms[k].key
    ensures Plain(Obj(ms), depth)
  {
    PlainObj(ms, depth);
  }

  lemma {:induction false} PlainReads(j: Json, style: Style)
    requires Plain(j, 0)
    ensures Parse(Dump(j, style)) == Got(j, [])
  {
    hide Parse, Dump, DistinctKeys, Nesting, Within;
    WithinIsNesting(j, 0);
    RoundTrip(j, style);
  }

  lemma LegKeysDiffer()
    ensures |SOURCE_IP| == 9 && |DESTINATION_IP| == 14 && |SOURCE_PORT| == 11 && |DESTINATION_PORT| == 16
    ensures |RTP_ENABLED| == 11 && RTP_ENABLED[0] != SOURCE_PORT[0]
  {}

  lemma BodyKeysDiffer()
    ensures |MASTER_ENABLE| == 13 && |RECEIVER_ID| == 11 && |TRANSPORT_PARAMS| == 16 && |ACTIVATION| == 10
    ensures |MODE| == 4 && |REQUESTED_TIME| == 14 && |ACTIVATION_TIME| == 15
  {}

  lemma {:induction false} LegsArePlain(legs: seq<LegPatch>)
    ensures Plain(Arr(ParamsJson(legs)), 1)
  {
    hide Plain, Leaf;
    forall i | 0 <= i < |legs| ensures Plain(ParamsJson(legs)[i], 2) { LegIsPlain(legs[i], 2); }
    PlainArr(ParamsJson(legs), 1);
  }

  lemma {:induction false} LegIsPlain(l: LegPatch, depth: nat)
    requires depth < MAX_DEPTH
    ensures Plain(Obj(LegMembers(l)), depth)
  {
    hide Plain, SOURCE_IP, DESTINATION_IP, SOURCE_PORT, DESTINATION_PORT, RTP_ENABLED;
    LegKeysDiffer();
    PlainLeaves(LegMembers(l), depth);
  }

  lemma {:induction false} BodyIsPlain(f: Fields, mode: Json)
    requires Leaf(mode)
    ensures Plain(Obj(BodyMembers(f, mode)), 0)
  {
    hide Plain, LegMembers, ParamsJson, MASTER_ENABLE, RECEIVER_ID, TRANSPORT_PARAMS, ACTIVATION, MODE;
    BodyKeysDiffer();
    LegsArePlain(f.legs);
    PlainLeaves([Member(MODE, mode)], 1);
    LeafIsPlain(BoolJson(f.enable), 1);
    var ms := BodyMembers(f, mode);
    if f.receiver.Some? { LeafIsPlain(Str(f.receiver.value), 1); }
    PlainObj(ms, 0);
  }

  lemma LeafIsPlain(j: Json, depth: nat)
    requires Leaf(j) && depth <= MAX_DEPTH
    ensures Plain(j, depth)
  {}

  /** The member that is looked for is the first with its key. */
  lemma {:induction false} AtIs(ms: seq<Member>, key: Text, i: nat)
    requires i < |ms| && ms[i].key == key && forall k :: 0 <= k < i ==> ms[k].key != key
    ensures Has(ms, key) && At(ms, key) == ms[i].value
  {
    if i > 0 { AtIs(ms[1..], key, i - 1); }
  }

  lemma {:induction false} LegReadsBack(l: LegPatch, whole: Text -> Int64)
    ensures LegOf(Obj(LegMembers(l)), whole) == l
  {
    hide At, Has, SOURCE_IP, DESTINATION_IP, SOURCE_PORT, DESTINATION_PORT, RTP_ENABLED;
    LegKeysDiffer();
    var ms := LegMembers(l);
    AtIs(ms, SOURCE_IP, 0);
    AtIs(ms, DESTINATION_IP, 1);
    AtIs(ms, SOURCE_PORT, 2);
    AtIs(ms, DESTINATION_PORT, 3);
    AtIs(ms, RTP_ENABLED, 4);
    PortReadsBack(l.sourcePort, whole);
    PortReadsBack(l.destPort, whole);
  }

  lemma PortReadsBack(o: Option<Port>, whole: Text -> Int64)
    ensures PortOf(PortJson(o), whole) == o
  {}

  lemma {:induction false} LegsReadBack(legs: seq<LegPatch>, whole: Text -> Int64)
    ensures LegsOf(ParamsJson(legs), whole) == legs
  {
    hide LegOf, LegMembers;
    forall i | 0 <= i < |legs| ensures LegsOf(ParamsJson(legs), whole)[i] == legs[i] { LegReadsBack(legs[i], whole); }
  }

  /** A written request is read as what it was to say. */
  lemma {:induction false} RequestReadsBack(f: Fields, mode: Text, style: Style, whole: Text -> Int64)
    ensures Decode(Encode(f, mode, style), whole) == Some(Order(f, mode))
  {
    hide Parse, Dump, Plain, OrderOf, BodyMembers;
    BodyIsPlain(f, Str(mode));
    PlainReads(Obj(BodyMembers(f, Str(mode))), style);
    BodyReadsBack(f, mode, whole);
  }

  lemma {:induction false} BodyReadsBack(f: Fields, mode: Text, whole: Text -> Int64)
    ensures OrderOf(BodyMembers(f, Str(mode)), whole) == Some(Order(f, mode))
  {
    hide At, Has, LegsOf, ParamsJson, MASTER_ENABLE, RECEIVER_ID, TRANSPORT_PARAMS, ACTIVATION, MODE;
    BodyKeysDiffer();
    var ms := BodyMembers(f, Str(mode));
    AtIs(ms, MASTER_ENABLE, 0);
    AtIs(ms, ACTIVATION, 1);
    AtIs(ms, TRANSPORT_PARAMS, 2);
    AtIs([Member(MODE, Str(mode))], MODE, 0);
    LegsReadBack(f.legs, whole);
    if f.receiver.Some? {
      AtIs(ms, RECEIVER_ID, 3);
    } else {
      HasNone(ms, RECEIVER_ID);
    }
  }

  lemma {:induction false} HasNone(ms: seq<Member>, key: Text)
    requires forall i :: 0 <= i < |ms| ==> ms[i].key != key
    ensures !Has(ms, key)
  {}

  // ---------------------------------------------------------------------------
  // Runs of requests
  // ---------------------------------------------------------------------------

  /** What can happen between two activations: a request, or the replay being started or
    * stopped by hand. */
  datatype Event = Patch(text: Text, live: Transport, applies: bool) | Sync(live: Transport)

  /** A request that is taken and only stages. */
  predicate Stages(c: Conn, text: Text, live: Transport, whole: Text -> Int64) {
    && Decode(text, whole).Some? && Decode(text, whole).value.mode == []
    && Acceptable(Decode(text, whole).value.fields, Start(c, live))
  }

  function Step(c: Conn, e: Event, whole: Text -> Int64): Conn {
    match e
    case Patch(text, live, applies) => Patched(c, text, live, applies, whole).conn
    case Sync(live) => Synced(c, live)
  }

  function Run(c: Conn, es: seq<Event>, whole: Text -> Int64): Conn {
    if es == [] then c else Step(Run(c, es[..|es| - 1], whole), es[|es| - 1], whole)
  }

  /** Every request of a run is taken and only stages. */
  predicate AllStage(c: Conn, es: seq<Event>, whole: Text -> Int64) {
    es == [] ||
    (var before := es[..|es| - 1];
     && AllStage(c, before, whole)
     && match es[|es| - 1]
        case Patch(text, live, _) => Stages(Run(c, before, whole), text, live, whole)
        case Sync(_) => true)
  }

  /** All a run of requests says, in one. */
  function Said(es: seq<Event>, whole: Text -> Int64): Fields {
    if es == [] then Fields(None, None, [])
    else
      var before := Said(es[..|es| - 1], whole);
      match es[|es| - 1]
      case Patch(text, _, _) => if Decode(text, whole).Some? then Merge(before, Decode(text, whole).value.fields) else before
      case Sync(_) => before
  }

  lemma {:induction false} NothingSaid(b: Base)
    ensures Apply(Fields(None, None, []), b) == Some(b)
  {}

  /** After a run of staging requests, begun with one, what is staged is what all of them in
    * one say about the transport that was live, or staged, at the first. */
  lemma {:induction false} RunStages(c: Conn, es: seq<Event>, whole: Text -> Int64)
    requires es != [] && es[0].Patch? && AllStage(c, es, whole)
    ensures Run(c, es, whole).stagedValid
    ensures Apply(Said(es, whole), Start(c, es[0].live)).Some?
    ensures forall live: Transport ::
              Alike(Apply(Said(es, whole), Start(c, es[0].live)).value, Start(Run(c, es, whole), live))
    decreases |es|
  {
    hide Decode, Apply, Acceptable, Merge;
    var n := |es| - 1;
    var before, e, b := es[..n], es[n], Start(c, es[0].live);
    if n == 0 {
      StepStages(c, e, whole);
      NothingSaid(b);
      assert before == [] && Run(c, before, whole) == c && Said(before, whole) == Fields(None, None, []);
      ApplyMerged(Fields(None, None, []), Decode(e.text, whole).value.fields, b);
    } else {
      assert before[0] == es[0];
      RunStages(c, before, whole);
      var mid := Run(c, before, whole);
      var atMid := Start(mid, es[0].live);
      var said := Apply(Said(before, whole), b).value;
      assert Alike(said, atMid);
      if e.Patch? {
        StepStages(mid, e, whole);
        var f := Decode(e.text, whole).value.fields;
        ApplyAlike(f, said, atMid);
        ApplyMerged(Said(before, whole), f, b);
      }
    }
  }

  /** What is staged after a staging request is what it says about what there was. */
  lemma {:induction false} StepStages(c: Conn, e: Event, whole: Text -> Int64)
    requires e.Patch? && Stages(c, e.text, e.live, whole)
    ensures var f, after := Decode(e.text, whole).value.fields, Step(c, e, whole);
            && after.stagedValid && Apply(f, Start(c, e.live)).Some?
            && forall live: Transport :: Start(after, live) == Apply(f, Start(c, e.live)).value
    ensures c.stagedValid ==> forall live: Transport :: Start(c, live) == Start(c, e.live)
  {
    hide Decode, Acceptable;
  }

  /** Any run of staging requests, the replay started and stopped by hand between them as it
    * may be, then an activation: the engine is handed the same transport, the answer and
    * the state after it are the same, as if at the first of them one request had come
    * saying all that they say, later words overriding earlier ones. */
  lemma {:induction false} RunIsOneRequest(c: Conn, es: seq<Event>, last: Text, lastLive: Transport, applies: bool,
                                           style: Style, whole: Text -> Int64)
    requires es != [] && es[0].Patch? && AllStage(c, es, whole)
    requires Patched(Run(c, es, whole), last, lastLive, applies, whole).handed != None
    ensures Decode(last, whole).Some?
    ensures var all := Encode(Merge(Said(es, whole), Decode(last, whole).value.fields), IMMEDIATE, style);
            var one := Patched(c, all, es[0].live, applies, whole);
            var run := Patched(Run(c, es, whole), last, lastLive, applies, whole);
            && one.handed == run.handed && one.status == run.status
            && (applies ==> one.conn == run.conn)
  {
    hide Decode, Encode, Merge, Acceptable, Said, Run, AllStage, PatchedWant;
    var f, g := Said(es, whole), Decode(last, whole).value.fields;
    RunStages(c, es, whole);
    var b, mid := Start(c, es[0].live), Start(Run(c, es, whole), lastLive);
    ApplyAlike(g, Apply(f, b).value, mid);
    ApplyMerged(f, g, b);
    RequestReadsBack(Merge(f, g), IMMEDIATE, style, whole);
    assert Alike(Apply(Merge(f, g), b).value, Apply(g, mid).value);
    assert Decode(last, whole).value.mode == IMMEDIATE;
    ModeIsNotEmpty();
  }

  lemma ModeIsNotEmpty()
    ensures IMMEDIATE != []
  {}

  /** `rtp_enabled` is one flag for both legs: the merge of two requests leaves it as the two
    * do one after the other, except where the later speaks for leg A alone and contradicts
    * what the earlier said for leg B. */
  lemma {:induction false} MergeKeepsRtp(f: Fields, g: Fields, b: Base)
    requires Apply(f, b).Some? && Apply(g, Apply(f, b).value).Some?
    ensures Apply(Merge(f, g), b).Some?
    ensures Apply(Merge(f, g), b).value == Apply(g, Apply(f, b).value).value
            <==> !(g.Leg(0).rtp.Some? && g.Leg(1).rtp.None? && f.Leg(1).rtp.Some? && f.Leg(1).rtp != g.Leg(0).rtp)
  {
    hide Merge, Fields.Leg;
    ApplyMerged(f, g, b);
    MergedLegs(f, g);
  }

  /** Such requests: leg B disabled, then leg A enabled, stages an
    * active transport, while both words in one request stage an inactive one. */
  lemma RtpIsNotPerLeg(c: Conn, live: Transport)
    requires !c.stagedValid && live.redundant
    ensures var off, on := NOTHING.(rtp := Some(false)), NOTHING.(rtp := Some(true));
            var f, g := Fields(None, None, [NOTHING, off]), Fields(None, None, [on]);
            var b := Start(c, live);
            && Apply(f, b).Some? && Apply(g, Apply(f, b).value).Some? && Apply(Merge(f, g), b).Some?
            && Apply(g, Apply(f, b).value).value.want.active
            && !Apply(Merge(f, g), b).value.want.active
  {}

  // ---------------------------------------------------------------------------
  // Every run
  // ---------------------------------------------------------------------------

  /** With nothing staged there is nothing left of what was. */
  predicate Clean(c: Conn) {
    !c.stagedValid ==> c.staged == DEFAULT && c.stagedReceiverId == [] && c.stagedMasterEnable == c.masterEnable
  }

  lemma {:induction false} StaysClean(c: Conn, es: seq<Event>, whole: Text -> Int64)
    requires Clean(c)
    ensures Clean(Run(c, es, whole))
    decreases |es|
  {
    hide Decode, Apply, DEFAULT;
    if es != [] { StaysClean(c, es[..|es| - 1], whole); }
  }

  /** An activation forgets the receiver unless its request, or one staged before it, names it:
    * with nothing staged, the active receiver survives exactly if the body names it again. */
  lemma {:induction false} ReceiverMustBeNamedAgain(c: Conn, es: seq<Event>, text: Text, live: Transport, whole: Text -> Int64)
    requires Clean(c) && !Run(c, es, whole).stagedValid
    requires Patched(Run(c, es, whole), text, live, true, whole).handed != None
    ensures Decode(text, whole).Some?
    ensures var at, named := Run(c, es, whole), Decode(text, whole).value.fields.receiver;
            Patched(at, text, live, true, whole).conn.activeReceiverId == at.activeReceiverId
            <==> named == Some(at.activeReceiverId) || (named == None && at.activeReceiverId == [])
  {
    hide Decode, Run, Acceptable, PatchedWant, DEFAULT;
    StaysClean(c, es, whole);
  }

  // ---------------------------------------------------------------------------
  // What is shown
  // ---------------------------------------------------------------------------

  /** The staged side as it is shown: what is staged, or else what is live. */
  function Shown(c: Conn, live: Transport): Base {
    Base(if c.stagedValid then c.staged else live, c.stagedMasterEnable, c.stagedReceiverId)
  }

  function ShownLeg(l: Leg, active: bool): LegPatch {
    LegPatch(Some(l.destIp), Some(l.destPort), Some(l.sourcePort), Some(active),
             if l.sourceIp == [] then None else Some(l.sourceIp))
  }

  function ShownLegs(t: Transport): seq<LegPatch> {
    [ShownLeg(t.legA, t.active)] + if t.redundant then [ShownLeg(t.legB, t.active)] else []
  }

  function NoActivation(): (r: seq<Member>)
    ensures |r| == 3
  {
    [Member(MODE, Null), Member(REQUESTED_TIME, Null), Member(ACTIVATION_TIME, Null)]
  }

  function ShownMembers(b: Base): (r: seq<Member>)
    ensures |r| == 4
  {
    [Member(RECEIVER_ID, if b.receiver == [] then Null else Str(b.receiver)), Member(MASTER_ENABLE, Bool(b.enable)),
     Member(ACTIVATION, Obj(NoActivation())), Member(TRANSPORT_PARAMS, Arr(ParamsJson(ShownLegs(b.want))))]
  }

  function ShownText(b: Base, style: Style): Text {
    ShownIsPlain(b);
    Dump(Obj(ShownMembers(b)), style)
  }

  lemma {:induction false} ShownIsPlain(b: Base)
    ensures Plain(Obj(ShownMembers(b)), 0)
  {
    hide Plain, LegMembers, ParamsJson;
    hide MASTER_ENABLE, RECEIVER_ID, TRANSPORT_PARAMS, ACTIVATION, MODE, REQUESTED_TIME, ACTIVATION_TIME;
    BodyKeysDiffer();
    LegsArePlain(ShownLegs(b.want));
    PlainLeaves(NoActivation(), 1);
    LeafIsPlain(Bool(b.enable), 1);
    LeafIsPlain(if b.receiver == [] then Null else Str(b.receiver), 1);
    PlainObj(ShownMembers(b), 0);
  }

  lemma {:induction false} ShownReadsBack(b: Base, whole: Text -> Int64)
    ensures OrderOf(ShownMembers(b), whole) == Some(Order(Fields(Some(b.enable), Some(b.receiver), ShownLegs(b.want)), []))
  {
    hide At, Has, LegsOf, ParamsJson, ShownLegs, MASTER_ENABLE, RECEIVER_ID, TRANSPORT_PARAMS, ACTIVATION, MODE;
    BodyKeysDiffer();
    var ms := ShownMembers(b);
    AtIs(ms, RECEIVER_ID, 0);
    AtIs(ms, MASTER_ENABLE, 1);
    AtIs(ms, ACTIVATION, 2);
    AtIs(ms, TRANSPORT_PARAMS, 3);
    AtIs(NoActivation(), MODE, 0);
    LegsReadBack(ShownLegs(b.want), whole);
  }

  lemma {:induction false} ShownApplies(want: Transport, enable: bool, receiver: Text, b: Base)
    requires b.want == want
    ensures Apply(Fields(Some(enable), Some(receiver), ShownLegs(want)), b) == Some(Base(want, enable, receiver))
  {}

  /** Sending back what was shown as staged is taken, and stages just what was shown. */
  lemma {:induction false} ShownCanBeSentBack(c: Conn, live: Transport, later: Transport, applies: bool,
                                              style: Style, whole: Text -> Int64)
    ensures var r := Patched(c, ShownText(Shown(c, live), style), live, applies, whole);
            r.status == 200 && r.handed == None && r.conn.stagedValid && Shown(r.conn, later) == Shown(c, live)
  {
    hide Parse, Dump, Plain, OrderOf, ShownMembers, Apply, ShownLegs;
    var b := Shown(c, live);
    ShownIsPlain(b);
    PlainReads(Obj(ShownMembers(b)), style);
    ShownReadsBack(b, whole);
    ShownApplies(b.want, b.enable, b.receiver, Start(c, live));
  }

  // ---------------------------------------------------------------------------
  // The node
  // ---------------------------------------------------------------------------

  /** What one element of the parameters does to its leg, and whether it may. */
  method EditLeg(p: Json, before: Leg, wasActive: bool, whole: Text -> Int64) returns (leg: Leg, active: bool, allowed: bool)
    ensures leg == PatchLeg(before, LegOf(p, whole)) && active == Put(LegOf(p, whole).rtp, wasActive)
    ensures allowed == SourceAllowed(before, LegOf(p, whole))
  {
    hide At, Has, DESTINATION_IP, DESTINATION_PORT, SOURCE_PORT, SOURCE_IP, RTP_ENABLED;
    leg, active, allowed := before, wasActive, true;
    var ms := MembersOf(p);
    AbsentOfLeg(ms);
    if Has(ms, DESTINATION_IP) && !At(ms, DESTINATION_IP).Null? {
      if At(ms, DESTINATION_IP).Str? { leg := leg.(destIp := At(ms, DESTINATION_IP).s); }
    }
    if Has(ms, DESTINATION_PORT) && PortOf(At(ms, DESTINATION_PORT), whole).Some? {
      leg := leg.(destPort := PortOf(At(ms, DESTINATION_PORT), whole).value);
    }
    if Has(ms, SOURCE_PORT) && PortOf(At(ms, SOURCE_PORT), whole).Some? {
      leg := leg.(sourcePort := PortOf(At(ms, SOURCE_PORT), whole).value);
    }
    if Has(ms, RTP_ENABLED) {
      active := Put(BoolOf(At(ms, RTP_ENABLED)), active);
    }
    if Has(ms, SOURCE_IP) && !At(ms, SOURCE_IP).Null? {
      var asked := TextOf(At(ms, SOURCE_IP));
      if before.sourceIp != [] && asked != before.sourceIp { allowed := false; }
    }
  }

  lemma {:induction false} AbsentOfLeg(ms: seq<Member>)
    ensures !Has(ms, DESTINATION_IP) ==> At(ms, DESTINATION_IP) == Null
    ensures !Has(ms, DESTINATION_PORT) ==> At(ms, DESTINATION_PORT) == Null
    ensures !Has(ms, SOURCE_PORT) ==> At(ms, SOURCE_PORT) == Null
    ensures !Has(ms, RTP_ENABLED) ==> At(ms, RTP_ENABLED) == Null
    ensures !Has(ms, SOURCE_IP) ==> At(ms, SOURCE_IP) == Null
  {
    hide At, Has;
    if !Has(ms, DESTINATION_IP) { Absent(ms, DESTINATION_IP); }
    if !Has(ms, DESTINATION_PORT) { Absent(ms, DESTINATION_PORT); }
    if !Has(ms, SOURCE_PORT) { Absent(ms, SOURCE_PORT); }
    if !Has(ms, RTP_ENABLED) { Absent(ms, RTP_ENABLED); }
    if !Has(ms, SOURCE_IP) { Absent(ms, SOURCE_IP); }
  }

  /** The parameters, leg by leg; nothing once one names another source address. */
  method EditLegs(params: seq<Json>, before: Transport, whole: Text -> Int64) returns (r: Option<Transport>)
    requires |params| <= before.Legs()
    ensures var f := Fields(None, None, LegsOf(params, whole));
            r == if SourceAllowed(before.legA, f.Leg(0)) && SourceAllowed(before.legB, f.Leg(1))
                 then Some(PatchedWant(f, before)) else None
  {
    hide LegOf, PatchLeg, SourceAllowed;
    NothingIsAllowed(before.legA);
    NothingIsAllowed(before.legB);
    ghost var f := Fields(None, None, LegsOf(params, whole));
    var want := before;
    var i := 0;
    while i < |params|
      invariant i <= |params|
      invariant want == before.(legA := if i > 0 then PatchLeg(before.legA, f.Leg(0)) else before.legA,
                                legB := if i > 1 then PatchLeg(before.legB, f.Leg(1)) else before.legB,
                                active := if i > 1 then Put(f.Leg(1).rtp, Put(f.Leg(0).rtp, before.active))
                                          else if i > 0 then Put(f.Leg(0).rtp, before.active) else before.active)
      invariant (i > 0 ==> SourceAllowed(before.legA, f.Leg(0))) && (i > 1 ==> SourceAllowed(before.legB, f.Leg(1)))
    {
      var leg, active, allowed := EditLeg(params[i], if i == 0 then want.legA else want.legB, want.active, whole);
      if !allowed { return None; }
      want := if i == 0 then want.(legA := leg, active := active) else want.(legB := leg, active := active);
      i := i + 1;
    }
    r := Some(want);
  }

  lemma NothingIsAllowed(l: Leg)
    ensures SourceAllowed(l, NOTHING) && PatchLeg(l, NOTHING) == l
  {}

  lemma {:induction false} OnlyLegsMatter(f: Fields, want: Transport)
    ensures var legs := Fields(None, None, f.legs);
            legs.Leg(0) == f.Leg(0) && legs.Leg(1) == f.Leg(1) && PatchedWant(legs, want) == PatchedWant(f, want)
  {}

  method ModeIn(a: seq<Member>) returns (mode: Text)
    ensures mode == TextOf(At(a, MODE))
  {
    hide At, Has, MODE;
    mode := [];
    if Has(a, MODE) && !At(a, MODE).Null? {
      mode := TextOf(At(a, MODE));
    } else if !Has(a, MODE) {
      Absent(a, MODE);
    }
  }

  lemma {:induction false} AbsentOfBody(ms: seq<Member>)
    ensures !Has(ms, MASTER_ENABLE) ==> At(ms, MASTER_ENABLE) == Null
    ensures !Has(ms, TRANSPORT_PARAMS) ==> At(ms, TRANSPORT_PARAMS) == Null
    ensures !Has(ms, ACTIVATION) ==> At(ms, ACTIVATION) == Null
  {
    hide At, Has;
    if !Has(ms, MASTER_ENABLE) { Absent(ms, MASTER_ENABLE); }
    if !Has(ms, TRANSPORT_PARAMS) { Absent(ms, TRANSPORT_PARAMS); }
    if !Has(ms, ACTIVATION) { Absent(ms, ACTIVATION); }
  }

  lemma NoMode(ms: seq<Member>)
    requires !At(ms, ACTIVATION).Obj?
    ensures ModeOf(ms) == []
  {
    assert At([], MODE) == Null;
  }

  lemma {:induction false} NoLegs(want: Transport, whole: Text -> Int64)
    ensures var f := Fields(None, None, LegsOf([], whole));
            && |f.legs| == 0 && SourceAllowed(want.legA, f.Leg(0)) && SourceAllowed(want.legB, f.Leg(1))
            && PatchedWant(f, want) == want
  {}

  /** What a body makes of the staged side, with the mode of the activation it asks for. */
  method EditBase(ms: seq<Member>, base: Base, whole: Text -> Int64) returns (r: Option<Base>, mode: Text)
    ensures match OrderOf(ms, whole)
            case None => r == None
            case Some(o) => r == Apply(o.fields, base) && (r.Some? ==> mode == o.mode)
  {
    hide At, Has, LegsOf, SourceAllowed, PatchedWant;
    AbsentOfBody(ms);
    ghost var o := OrderOf(ms, whole);
    var want, enable, receiver := base.want, base.enable, base.receiver;
    if o.Some? { OnlyLegsMatter(o.value.fields, want); }
    if Has(ms, MASTER_ENABLE) { enable := Put(BoolOf(At(ms, MASTER_ENABLE)), enable); }
    if Has(ms, RECEIVER_ID) { receiver := TextOf(At(ms, RECEIVER_ID)); }
    if Has(ms, TRANSPORT_PARAMS) {
      var params := At(ms, TRANSPORT_PARAMS);
      if !params.Arr? { return None, []; }
      if |params.items| > want.Legs() { return None, []; }
      var edited := EditLegs(params.items, want, whole);
      if edited == None { return None, []; }
      want := edited.value;
    } else {
      NoLegs(want, whole);
    }
    mode := [];
    if Has(ms, ACTIVATION) && At(ms, ACTIVATION).Obj? {
      mode := ModeIn(At(ms, ACTIVATION).members);
    } else {
      NoMode(ms);
    }
    r := Some(Base(want, enable, receiver));
  }

  class ConnectionApi {
    var staged: Transport
    var stagedValid: bool
    var stagedMasterEnable: bool
    var stagedReceiverId: Text
    var activeReceiverId: Text
    var masterEnable: bool

    function Value(): Conn
      reads this
    {
      Conn(staged, stagedValid, stagedMasterEnable, stagedReceiverId, activeReceiverId, masterEnable)
    }

    /** At the start nothing is staged and both enables say whether the engine transmits. */
    constructor (live: Transport)
      ensures Clean(Value()) && !stagedValid && masterEnable == live.active && activeReceiverId == []
    {
      staged, stagedValid := DEFAULT, false;
      stagedMasterEnable, masterEnable := live.active, live.active;
      stagedReceiverId, activeReceiverId := [], [];
    }

    method SyncEnableFromEngine(live: Transport)
      modifies this
      ensures Value() == Synced(old(Value()), live)
    {
      masterEnable := live.active;
      if !stagedValid { stagedMasterEnable := live.active; }
    }

    /** A PATCH of the staged parameters.  `applies` is what the engine will say to the
      * transport it is handed, if it is handed one. */
    method HandleStagedPatch(text: Text, live: Transport, applies: bool, whole: Text -> Int64)
      returns (status: nat, handed: Option<Transport>)
      modifies this
      ensures Outcome(Value(), status, handed) == Patched(old(Value()), text, live, applies, whole)
    {
      hide Parse, OrderOf, Apply, DEFAULT, IMMEDIATE;
      handed := None;
      var body, error := JsonText.ParseText(text);
      if error != None || !body.Obj? { return 400, None; }
      var base := Base(staged, stagedMasterEnable, stagedReceiverId);
      if !stagedValid { base := base.(want := live, enable := live.active); }
      var edited, mode := EditBase(body.members, base, whole);
      if edited == None { return 400, None; }
      var Base(want, enable, receiver) := edited.value;
      if mode == [] {
        staged, stagedValid, stagedMasterEnable, stagedReceiverId := want, true, enable, receiver;
        return 200, None;
      }
      if mode != IMMEDIATE { return 501, None; }
      want := want.(active := enable);
      handed := Some(want);
      if !applies { return 500, handed; }
      stagedValid, staged := false, DEFAULT;
      masterEnable, activeReceiverId := enable, receiver;
      stagedReceiverId, stagedMasterEnable := [], enable;
      status := 200;
    }

    /** The staged side as a controller reads it. */
    method StagedObject(live: Transport) returns (j: Json)
      ensures j == Obj(ShownMembers(Shown(Value(), live)))
    {
      var t := if stagedValid then staged else live;
      var legs := [ShownLeg(t.legA, t.active)];
      if t.redundant { legs := legs + [ShownLeg(t.legB, t.active)]; }
      assert legs == ShownLegs(t);
      j := Obj([Member(RECEIVER_ID, if stagedReceiverId == [] then Null else Str(stagedReceiverId)),
                Member(MASTER_ENABLE, Bool(stagedMasterEnable)),
                Member(ACTIVATION, Obj([Member(MODE, Null), Member(REQUESTED_TIME, Null), Member(ACTIVATION_TIME, Null)])),
                Member(TRANSPORT_PARAMS, Arr(ParamsJson(legs)))]);
    }
  }
}
