/** What a PATCH of the staged parameters is answered, and what an activation hands the engine,
  * in terms of the members of its body. */
module Is05Answers {
  import opened Wrappers
  import opened Json
  import opened Is05

  /** The names of AMWA IS-05 v1.1, and the transport staged at the start. */
  lemma Names()
    ensures MASTER_ENABLE == Ascii("master_enable") && RECEIVER_ID == Ascii("receiver_id")
    ensures TRANSPORT_PARAMS == Ascii("transport_params") && ACTIVATION == Ascii("activation") && MODE == Ascii("mode")
    ensures REQUESTED_TIME == Ascii("requested_time") && ACTIVATION_TIME == Ascii("activation_time")
    ensures IMMEDIATE == Ascii("activate_immediate")
  {}

  lemma LegNames()
    ensures SOURCE_IP == Ascii("source_ip") && DESTINATION_IP == Ascii("destination_ip")
    ensures SOURCE_PORT == Ascii("source_port") && DESTINATION_PORT == Ascii("destination_port")
    ensures RTP_ENABLED == Ascii("rtp_enabled")
  {}

  lemma Defaults()
    ensures DEFAULT.legA == Leg([], Ascii("239.1.1.1"), 40000, 5004) && DEFAULT.legB == Leg([], Ascii("239.2.1.1"), 40000, 5004)
    ensures !DEFAULT.active && !DEFAULT.redundant && DEFAULT.carried.ttl == 8 && DEFAULT.carried.payloadType == 98
  {}

  /** The members of the `i`-th element of the parameters. */
  function Named(params: seq<Json>, i: nat): seq<Member> {
    if i < |params| then MembersOf(params[i]) else []
  }

  /** An element of the parameters names a source address other than the one its leg has. */
  predicate WrongSource(ms: seq<Member>, leg: Leg) {
    var asked := At(ms, Ascii("source_ip"));
    !asked.Null? && leg.sourceIp != [] && !(asked.Str? && asked.s == leg.sourceIp)
  }

  predicate NotAnArray(ms: seq<Member>) {
    Has(ms, Ascii("transport_params")) && !At(ms, Ascii("transport_params")).Arr?
  }

  function Params(ms: seq<Member>): seq<Json> {
    var p := At(ms, Ascii("transport_params"));
    if p.Arr? then p.items else []
  }

  /** A request cannot be taken: its parameters are no array, or more than there are legs, or one
    * of them names another source address. */
  predicate Refusable(ms: seq<Member>, want: Transport) {
    || NotAnArray(ms)
    || |Params(ms)| > want.Legs()
    || WrongSource(Named(Params(ms), 0), want.legA)
    || WrongSource(Named(Params(ms), 1), want.legB)
  }

  /** The mode of activation asked for; empty if there is none to read. */
  function Mode(ms: seq<Member>): Text {
    var a := At(ms, Ascii("activation"));
    if !a.Obj? then [] else if At(a.members, Ascii("mode")).Str? then At(a.members, Ascii("mode")).s else []
  }

  /** The answer to a request with a body that is an object. */
  function Answer(ms: seq<Member>, want: Transport, applies: bool): nat {
    if Refusable(ms, want) then 400
    else if Mode(ms) == [] then 200
    else if Mode(ms) != Ascii("activate_immediate") then 501
    else if applies then 200 else 500
  }

  /** Every request is answered so: 400 if its text is not one object in JSON. */
  lemma {:induction false} Answers(c: Conn, text: Text, live: Transport, applies: bool, whole: Text -> Int64)
    ensures Patched(c, text, live, applies, whole).status
            == if Parse(text).Got? && Parse(text).value.Obj?
               then Answer(Parse(text).value.members, if c.stagedValid then c.staged else live, applies)
               else 400
  {
    hide Parse, Answer, Apply, OrderOf, IMMEDIATE, Ascii;
    if Parse(text).Got? && Parse(text).value.Obj? {
      ObjectAnswers(Parse(text).value.members, Start(c, live), applies, whole);
    }
  }

  lemma {:induction false} ObjectAnswers(ms: seq<Member>, b: Base, applies: bool, whole: Text -> Int64)
    ensures Answer(ms, b.want, applies)
            == match OrderOf(ms, whole)
               case None => 400
               case Some(o) =>
                 if Apply(o.fields, b) == None then 400
                 else if o.mode == [] then 200
                 else if o.mode != IMMEDIATE then 501
                 else if applies then 200 else 500
  {
    Names();
    hide At, Has, Ascii, PatchedWant, MASTER_ENABLE, RECEIVER_ID, TRANSPORT_PARAMS, ACTIVATION, MODE, IMMEDIATE;
    hide WrongSource, SourceAllowed, LegOf;
    var params := Params(ms);
    SourceIsChecked(params, 0, b.want.legA, whole);
    SourceIsChecked(params, 1, b.want.legB, whole);
    NoModeAnywhere();
  }

  lemma NoModeAnywhere()
    ensures At([], MODE) == Null
  {}

  lemma {:induction false} SourceIsChecked(params: seq<Json>, i: nat, leg: Leg, whole: Text -> Int64)
    ensures var p := if i < |params| then LegOf(params[i], whole) else NOTHING;
            WrongSource(Named(params, i), leg) <==> !SourceAllowed(leg, p)
  {
    LegNames();
    hide Ascii, DESTINATION_IP, DESTINATION_PORT, SOURCE_PORT, SOURCE_IP, RTP_ENABLED, Has;
    assert At([], SOURCE_IP) == Null;
  }

  /** What one element of the parameters makes of its leg: the destination if it is text, either
    * port if it is a number, to sixteen bits, and the rest as it was. */
  predicate LegFollows(ms: seq<Member>, was: Leg, now: Leg, whole: Text -> Int64) {
    && now.sourceIp == was.sourceIp
    && (match At(ms, Ascii("destination_ip"))
        case Str(s) => now.destIp == s
        case _ => now.destIp == was.destIp)
    && PortFollows(At(ms, Ascii("destination_port")), was.destPort, now.destPort, whole)
    && PortFollows(At(ms, Ascii("source_port")), was.sourcePort, now.sourcePort, whole)
  }

  predicate PortFollows(j: Json, was: nat, now: nat, whole: Text -> Int64) {
    match j
    case Int(i) => now == i % 0x10000
    case Real(token) => now == whole(token) % 0x10000
    case _ => now == was
  }

  /** An activation hands the engine the staged transport, or with nothing staged the live one,
    * each leg as its parameters say, and the enable of the request if it is a boolean, or a
    * number for whether it is not zero, and else the one before. */
  lemma {:induction false} ActivationHands(c: Conn, text: Text, live: Transport, applies: bool, whole: Text -> Int64)
    requires Patched(c, text, live, applies, whole).handed.Some?
    ensures Parse(text).Got? && Parse(text).value.Obj?
    ensures var ms, was := Parse(text).value.members, if c.stagedValid then c.staged else live;
            var now := Patched(c, text, live, applies, whole).handed.value;
            && Mode(ms) == Ascii("activate_immediate")
            && LegFollows(Named(Params(ms), 0), was.legA, now.legA, whole)
            && LegFollows(Named(Params(ms), 1), was.legB, now.legB, whole)
            && now.redundant == was.redundant && now.carried == was.carried
            && now.active == Enabled(At(ms, Ascii("master_enable")), if c.stagedValid then c.stagedMasterEnable else live.active)
  {
    hide Parse, Ascii, At, Has, LegOf, PatchLeg, LegFollows, MASTER_ENABLE, RECEIVER_ID, TRANSPORT_PARAMS, ACTIVATION, MODE;
    hide SourceAllowed, IMMEDIATE, DEFAULT;
    Names();
    NoModeAnywhere();
    var ms, was := Parse(text).value.members, if c.stagedValid then c.staged else live;
    ElementFollows(Params(ms), 0, was.legA, whole);
    ElementFollows(Params(ms), 1, was.legB, whole);
  }

  function Enabled(j: Json, before: bool): bool {
    match j
    case Bool(b) => b
    case Int(i) => i != 0
    case _ => before
  }

  lemma {:induction false} ElementFollows(params: seq<Json>, i: nat, leg: Leg, whole: Text -> Int64)
    ensures var p := if i < |params| then LegOf(params[i], whole) else NOTHING;
            LegFollows(Named(params, i), leg, PatchLeg(leg, p), whole)
  {
    LegNames();
    hide Ascii, DESTINATION_IP, DESTINATION_PORT, SOURCE_PORT, SOURCE_IP, RTP_ENABLED, Has;
    assert forall key :: At([], key) == Null;
  }

  /** Naming another source address than the sender's is answered 400, and changes nothing. */
  lemma {:induction false} OtherSourceRefused(c: Conn, text: Text, live: Transport, applies: bool, whole: Text -> Int64,
                                              ms: seq<Member>, ip: Text)
    requires Parse(text) == Got(Obj(ms), []) && |Params(ms)| > 0
    requires At(Named(Params(ms), 0), Ascii("source_ip")) == Str(ip)
    requires var leg := (if c.stagedValid then c.staged else live).legA; leg.sourceIp != [] && leg.sourceIp != ip
    ensures Patched(c, text, live, applies, whole) == Outcome(c, 400, None)
  {
    hide Parse, Params, Named, Patched, Ascii, At;
    Answers(c, text, live, applies, whole);
    Unchanged400(c, text, live, applies, whole);
  }

  lemma {:induction false} Unchanged400(c: Conn, text: Text, live: Transport, applies: bool, whole: Text -> Int64)
    requires Patched(c, text, live, applies, whole).status == 400
    ensures Patched(c, text, live, applies, whole) == Outcome(c, 400, None)
  {
    hide Decode, Apply;
  }
}
