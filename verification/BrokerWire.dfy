/** The broker's replies as they go out, and as the client reads them off the wire. */
module BrokerWire {
  import opened Bytes
  import opened Messages
  import opened OptionCodec
  import opened Pdus
  import opened Topics
  import opened VarInt
  import opened BrokerStates
  import opened BrokerRuns
  import opened BrokerTheorems
  import opened BrokerAnswers

  /** A handler is called with a response that holds a header and the token. */
  predicate Startable(kind: nat, size: nat, token: seq<byte>) {
    kind < 4 && |token| <= 8 && |token| + 4 <= size <= MAX_PDU_SIZE
  }

  function Started(kind: nat, id: (byte, byte), size: nat, token: seq<byte>): (p: PduState)
    requires Startable(kind, size, token)
    ensures p.Valid()
  {
    WithToken(Fresh(kind, 0, id, size), token).value
  }

  /** The response that goes out. */
  function Sent(kind: nat, id: (byte, byte), size: nat, token: seq<byte>, r: Reply): (p: PduState)
    requires Startable(kind, size, token) && r.code <= 505
    ensures p.Valid()
  {
    WithReply(Started(kind, id, size, token), r)
  }

  /** The options of the reply that went in. */
  function OptsSent(kind: nat, id: (byte, byte), size: nat, token: seq<byte>, r: Reply): seq<Opt>
    requires Startable(kind, size, token) && r.code <= 505
  {
    Taken(WithCode(Started(kind, id, size, token), ResponseCode(r.code)), r.opts)
  }

  /** The reply as a message. */
  function Meant(kind: nat, id: (byte, byte), token: seq<byte>, r: Reply): Message
    requires r.code <= 505
  {
    Message(1, kind, ResponseCode(r.code), id, token, r.opts, r.payload)
  }

  /** What the client makes of it is the reply as it was meant. */
  predicate Arrives(kind: nat, id: (byte, byte), size: nat, token: seq<byte>, r: Reply)
    requires Startable(kind, size, token) && r.code <= 505
  {
    ParseMessage(Sent(kind, id, size, token, r).bytes) == Some(Meant(kind, id, token, r))
  }

  // ----- what is sent

  /** The response stands for the options and the payload that went in. */
  lemma SentBuilt(kind: nat, id: (byte, byte), size: nat, token: seq<byte>, r: Reply)
    requires Startable(kind, size, token) && r.code <= 505
    ensures (var q := Sent(kind, id, size, token, r);
             Built(q, Meant(kind, id, token, r).(opts := OptsSent(kind, id, size, token, r), payload := DataOf(q))))
  {
    hide Serialize, AddEach, Taken, WithData, DataOf;
    var p, m := Fresh(kind, 0, id, size), Message(1, kind, 0, id, [], [], []);
    BuiltFresh(kind, 0, id, size);
    BuiltToken(p, m, token);
    var q, m1 := WithToken(p, token).value, m.(token := token);
    BuiltCode(q, m1, ResponseCode(r.code));
    var q1, m2 := WithCode(q, ResponseCode(r.code)), m1.(code := ResponseCode(r.code));
    BuiltEach(q1, m2, r.opts);
    assert m2.opts + Taken(q1, r.opts) == Taken(q1, r.opts);
    BuiltTry(AddEach(q1, r.opts), m2.(opts := Taken(q1, r.opts)), r.payload);
  }

  /** The space a reply needs. */
  function Needed(token: seq<byte>, r: Reply): nat
    requires Sorted(r.opts, 0)
  {
    4 + |token| + |EncodeOpts(r.opts, 0)| + |PayloadPart(r.payload)|
  }

  /** Everything goes in exactly when there is room for everything, the options alone
      exactly when there is room for them. */
  lemma SentWhole(kind: nat, id: (byte, byte), size: nat, token: seq<byte>, r: Reply)
    requires Startable(kind, size, token) && r.code <= 505 && Sorted(r.opts, 0)
    ensures (var q := Sent(kind, id, size, token, r);
             && (OptsSent(kind, id, size, token, r) == r.opts <==> Needed(token, r.(payload := [])) <= size)
             && (OptsSent(kind, id, size, token, r) == r.opts && DataOf(q) == r.payload <==> Needed(token, r) <= size)
             && (DataOf(q) == r.payload || DataOf(q) == []))
  {
    hide AddEach, Taken, EncodeOpts, Sorted;
    var p := WithCode(Started(kind, id, size, token), ResponseCode(r.code));
    assert |p.bytes| == 4 + |token| && p.maxDelta == 0 && p.max == size;
    TakenAll(p, r.opts);
    EachKeeps(p, r.opts);
  }

  /** Option numbers and values that no choice among them puts on the boundary. */
  predicate Plainly(opts: seq<Opt>) {
    forall o :: o in opts ==> o.number < 269 && |o.value| <= 65804 && |o.value| != 269
  }

  lemma {:induction false} PlainlyOff(opts: seq<Opt>, prev: uint16)
    requires Plainly(opts)
    ensures OffBoundary(opts, prev)
  {
    if opts != [] {
      assert opts[0] in opts && forall o :: o in opts[1..] ==> o in opts;
      PlainlyOff(opts[1..], opts[0].number);
    }
  }

  /** The client reads exactly what went in, which is the whole reply if and only if
      there is room for it. */
  lemma SentReads(kind: nat, id: (byte, byte), size: nat, token: seq<byte>, r: Reply)
    requires Startable(kind, size, token) && 200 <= r.code <= 505 && Sorted(r.opts, 0)
    requires OffBoundary(OptsSent(kind, id, size, token, r), 0)
    ensures (var q := Sent(kind, id, size, token, r);
             && ParseMessage(q.bytes) == Some(Meant(kind, id, token, r).(
                  opts := OptsSent(kind, id, size, token, r), payload := DataOf(q)))
             && (Arrives(kind, id, size, token, r) <==> Needed(token, r) <= size))
  {
    hide ParseMessage, Sent, OptsSent, DataOf, Needed, Serialize, OffBoundary, Sorted;
    var q, taken := Sent(kind, id, size, token, r), OptsSent(kind, id, size, token, r);
    SentBuilt(kind, id, size, token, r);
    SentWhole(kind, id, size, token, r);
    BuiltReads(q, Meant(kind, id, token, r).(opts := taken, payload := DataOf(q)));
  }

  lemma SomeSent(kind: nat, id: (byte, byte), size: nat, token: seq<byte>, r: Reply)
    requires Startable(kind, size, token) && r.code <= 505
    ensures |OptsSent(kind, id, size, token, r)| <= |r.opts|
    ensures forall o :: o in OptsSent(kind, id, size, token, r) ==> o in r.opts
    ensures Plainly(r.opts) ==> OffBoundary(OptsSent(kind, id, size, token, r), 0)
  {
    hide Started, WithCode;
    if Plainly(r.opts) {
      PlainlyOff(OptsSent(kind, id, size, token, r), 0);
    }
  }

  // ----- answers to a GET

  /** Bytes that an option takes when its delta and its length are below 13. */
  function OptSize(value: seq<byte>): nat {
    1 + |value|
  }

  /** The space that the answer to a GET needs. */
  function AnswerSize(token: seq<byte>, t: Topic, format: uint16, observed: bool, observe: uint32, at: int): nat {
    var r := Answer(t, format, observed, observe, at);
    4 + |token|
    + (if observed then OptSize(VarBytes(observe)) else 0)
    + OptSize(VarBytes(format))
    + (if r.code == 205 && t.dataMa != 0 then OptSize(VarBytes((t.dataMa - at) % TWO32)) else 0)
    + (if r.payload == [] then 0 else 1 + |r.payload|)
  }

  lemma OptIn(number: uint16, v: seq<byte>, rest: seq<Opt>, prev: uint16)
    requires prev <= number < prev + 13 && |v| < 13
    ensures (var opts := [Opt(number, v)] + rest;
             && (Sorted(opts, prev) <==> Sorted(rest, number))
             && (Sorted(rest, number) ==> |EncodeOpts(opts, prev)| == OptSize(v) + |EncodeOpts(rest, number)|))
  {
    assert ([Opt(number, v)] + rest)[1..] == rest;
  }

  /** The options of an answer from their front. */
  function AnswerTail(t: Topic, format: uint16, at: int): seq<Opt> {
    var r := Answer(t, format, false, 0, at);
    [Opt(CONTENT_TYPE, VarBytes(format))]
    + if r.code == 205 && t.dataMa != 0 then [Opt(MAX_AGE, VarBytes((t.dataMa - at) % TWO32))] + [] else []
  }

  lemma AnswerIs(t: Topic, format: uint16, observed: bool, observe: uint32, at: int)
    ensures (var r := Answer(t, format, observed, observe, at);
             && 204 <= r.code <= 205 && r.code == Answer(t, format, false, 0, at).code
             && r.opts == (if observed then [Opt(OBSERVE, VarBytes(observe))] + AnswerTail(t, format, at)
                           else AnswerTail(t, format, at)))
  {
    hide VarBytes;
  }

  /** The options of an answer, in order and off the boundary. */
  lemma AnswerOpts(token: seq<byte>, t: Topic, format: uint16, observed: bool, observe: uint32, at: int)
    ensures (var r := Answer(t, format, observed, observe, at);
             && 204 <= r.code <= 205 && Sorted(r.opts, 0) && Plainly(r.opts)
             && Needed(token, r) == AnswerSize(token, t, format, observed, observe, at)
             && |EncodeOpts(r.opts, 0)| <= 15)
  {
    hide VarBytes, Answer, Sorted, EncodeOpts;
    AnswerIs(t, format, observed, observe, at);
    AtMostFour(observe);
    AtMostFour(format);
    AtMostFour((t.dataMa - at) % TWO32);
    TailOpts(t, format, at, if observed then OBSERVE else 0);
    OptIn(OBSERVE, VarBytes(observe), AnswerTail(t, format, at), 0);
  }

  lemma TailOpts(t: Topic, format: uint16, at: int, prev: uint16)
    requires prev <= OBSERVE
    ensures (var opts, sent := AnswerTail(t, format, at), Answer(t, format, false, 0, at).code == 205 && t.dataMa != 0;
             && Sorted(opts, prev) && Plainly(opts)
             && |EncodeOpts(opts, prev)| == OptSize(VarBytes(format))
                                            + (if sent then OptSize(VarBytes((t.dataMa - at) % TWO32)) else 0))
  {
    hide VarBytes, Answer;
    var left := (t.dataMa - at) % TWO32;
    AtMostFour(format);
    AtMostFour(left);
    assert Sorted([], MAX_AGE) && Sorted([], CONTENT_TYPE);
    assert EncodeOpts([], MAX_AGE) == [] && EncodeOpts([], CONTENT_TYPE) == [];
    hide Sorted, EncodeOpts;
    OptIn(MAX_AGE, VarBytes(left), [], CONTENT_TYPE);
    OptIn(CONTENT_TYPE, VarBytes(format), AnswerTail(t, format, at)[1..], prev);
  }

  /** An answer to a GET reaches the client as it was meant if and only if header,
      token, options and payload fit into the response. */
  lemma AnswerArrives(t: Topic, format: uint16, observed: bool, observe: uint32, at: int,
                      kind: nat, id: (byte, byte), size: nat, token: seq<byte>)
    requires Startable(kind, size, token)
    ensures Answer(t, format, observed, observe, at).code <= 505
    ensures Arrives(kind, id, size, token, Answer(t, format, observed, observe, at))
       <==> AnswerSize(token, t, format, observed, observe, at) <= size
  {
    hide Arrives, Answer, AnswerSize, Plainly, Sorted;
    AnswerOpts(token, t, format, observed, observe, at);
    SomeSent(kind, id, size, token, Answer(t, format, observed, observe, at));
    SentReads(kind, id, size, token, Answer(t, format, observed, observe, at));
  }

  /** In a response of the usual size it is the payload alone that may be missing. */
  lemma AnswerReads(t: Topic, format: uint16, observed: bool, observe: uint32, at: int,
                    kind: nat, id: (byte, byte), token: seq<byte>)
    requires Startable(kind, MAX_PDU_SIZE, token)
    ensures (var r := Answer(t, format, observed, observe, at);
             && r.code <= 505
             && ParseMessage(Sent(kind, id, MAX_PDU_SIZE, token, r).bytes) == Some(Meant(kind, id, token, r).(
                  payload := if AnswerSize(token, t, format, observed, observe, at) <= MAX_PDU_SIZE then r.payload else [])))
  {
    hide ParseMessage, Answer, AnswerSize, Plainly, Sorted, Sent, OptsSent, EncodeOpts, DataOf;
    AnswerOpts(token, t, format, observed, observe, at);
    var r := Answer(t, format, observed, observe, at);
    SentWhole(kind, id, MAX_PDU_SIZE, token, r);
    SomeSent(kind, id, MAX_PDU_SIZE, token, r);
    SentReads(kind, id, MAX_PDU_SIZE, token, r);
    assert Needed(token, r.(payload := [])) <= MAX_PDU_SIZE;
  }

  /** What a client reads off a 2.05: the content format, the time that the data have
      left, and the data themselves exactly when they fit behind the rest, or else
      nothing in their place. */
  lemma ContentOnWire(s: State, uri: string, req: Option<Request>, observed: bool, observe: uint32, at: int,
                      kind: nat, id: (byte, byte), token: seq<byte>)
    requires Invariant(s) && uri in s.resources && IsTopic(uri) && s.now <= at && Startable(kind, MAX_PDU_SIZE, token)
    requires GetReply(s, uri, req, observed, observe, at).code == 205
    ensures Has(s.topics, uri) && Find(s.topics, uri).value.data.Some?
    ensures (var t := Find(s.topics, uri).value;
             var m := ParseMessage(Sent(kind, id, MAX_PDU_SIZE, token, GetReply(s, uri, req, observed, observe, at)).bytes);
             && m.Some? && m.value.code == 2 * 32 + 5 && m.value.token == token
             && FirstValue(m.value.opts, CONTENT_TYPE) == Some(Format(s.resources[uri]))
             && FirstValue(m.value.opts, MAX_AGE) == (if t.dataMa == 0 then None else Some(t.dataMa - at))
             && m.value.payload
                == if AnswerSize(token, t, Format(s.resources[uri]), observed, observe, at) <= MAX_PDU_SIZE then t.data.value else [])
  {
    hide ParseMessage, Answer, AnswerSize, GetReply, Sent, Find, Has, Format, FormatOk, FirstValue, Invariant;
    TopicKnown(s, uri);
    ContentIsFresh(s, uri, req, observed, observe, at);
    AnswerGiven(s, uri, req, observed, observe, at);
    AnswerReads(Find(s.topics, uri).value, Format(s.resources[uri]), observed, observe, at, kind, id, token);
  }

  // ----- a run in which stored data cannot be read back

  const URI_PATH: uint16 := 11

  /** A PUT to ps/a with content format 0, as a client writes it. */
  function Publishing(data: seq<byte>): Message {
    Message(1, 0, 3, (0, 1), [], [Opt(URI_PATH, Ascii("ps")), Opt(URI_PATH, Ascii("a")), Opt(CONTENT_TYPE, [])], data)
  }

  /** A GET without a payload, asking for content format 0. */
  const Fetching := Request([Opt(CONTENT_TYPE, [])], None)

  /** With 1388 bytes of data it fits into a datagram of the usual size and is read
      from it as it was meant. */
  lemma PublishingFits(data: seq<byte>)
    requires |data| == 1388
    ensures Publishing(data).Valid() && |Serialize(Publishing(data))| <= MAX_PDU_SIZE
    ensures ParseMessage(Serialize(Publishing(data))) == Some(Publishing(data))
  {
    var m := Publishing(data);
    var o2, o1 := [Opt(CONTENT_TYPE, [])] + [], [Opt(URI_PATH, Ascii("a"))] + ([Opt(CONTENT_TYPE, [])] + []);
    assert m.opts == [Opt(URI_PATH, Ascii("ps"))] + o1;
    assert Sorted([], CONTENT_TYPE) && EncodeOpts([], CONTENT_TYPE) == [];
    assert |Ascii("ps")| == 2 && |Ascii("a")| == 1;
    hide EncodeOpts, Sorted, ParseMessage, OffBoundary, Ascii;
    OptIn(CONTENT_TYPE, [], [], URI_PATH);
    OptIn(URI_PATH, Ascii("a"), o2, URI_PATH);
    OptIn(URI_PATH, Ascii("ps"), o1, 0);
    PlainlyOff(m.opts, 0);
    RoundTrip(m);
  }

  lemma ZeroFormat(opts: seq<Opt>)
    requires opts == Fetching.opts || opts == Publishing([]).opts
    ensures FirstValue(opts, CONTENT_TYPE) == Some(0) && FirstValue(opts, MAX_AGE) == None
  {
    assert Value([]) == 0;
    assert Publishing([]).opts[1..][1..] == Fetching.opts;
  }

  /** From the start: a topic is made and 1388 bytes are stored under it, which a PUT
      of the usual size brings. A client that asks for them with a token of eight bytes
      gets a 2.05 without a payload. */
  lemma ContentLost(data: seq<byte>, kind: nat, id: (byte, byte), token: seq<byte>)
    returns (states: seq<State>, events: seq<Event>)
    requires |data| == 1388 && 0 !in data && kind < 4 && |token| == 8
    ensures IsRun(states, events) && |events| == 2
    ensures Publishing(data).Valid() && |Serialize(Publishing(data))| <= MAX_PDU_SIZE
    ensures ParseMessage(Serialize(Publishing(data))) == Some(Publishing(data))
    ensures events[1] == BrokerRuns.Event.Put("ps/a", Request(Publishing(data).opts, Some(data)), 0)
    ensures Has(states[2].topics, "ps/a") && Find(states[2].topics, "ps/a").value.data == Some(data)
    ensures "ps/a" in states[2].resources && FormatOk(states[2].resources["ps/a"])
    ensures (var r := GetReply(states[2], "ps/a", Some(Fetching), false, 0, 0);
             && r.code == 205 && r.payload == data
             && ParseMessage(Sent(kind, id, MAX_PDU_SIZE, token, r).bytes) == Some(Meant(kind, id, token, r).(payload := [])))
  {
    hide Invariant, AfterPost, Asking, Has, GetReply, FormatOk, Format, FirstValue, AnswerSize, ParseMessage, Sent, AfterPut, Serialize;
    PublishingFits(data);
    var s0 := Initial;
    InitialHolds();
    assert "ps/" + "a" == "ps/a";
    assert s0.resources.Keys == {"ps"};
    PostMakes(s0, "a");
    FormatZero("ps/a");
    var e0 := Posted("ps", Asking("a"), 0);
    PostKeeps(s0, "ps", Asking("a"), 0);
    var s1 := AfterPost(s0, "ps", Asking("a"), 0);
    var e1 := BrokerRuns.Event.Put("ps/a", Request(Publishing(data).opts, Some(data)), 0);
    PutStores(s1, data);
    var s2 := AfterPut(s1, "ps/a", Request(Publishing(data).opts, Some(data)), 0);
    states, events := [s0, s1, s2], [e0, e1];
    assert "ps/" <= "ps/a" && Enabled(s1, e1) && Next(s1, e1) == s2;
    PutFetched(s2, data);
    AnswerReads(Topic("ps/a", Some(data), 0, 0), 0, false, 0, 0, kind, id, token);
    TooLong(token, data);
  }

  /** The state a PUT leaves behind a topic without data. */
  lemma PutStores(s: State, data: seq<byte>)
    requires 0 !in data && data != [] && s.topics == [Topic("ps/a", None, 0, 0)]
    requires "ps/a" in s.resources && FormatOk(s.resources["ps/a"]) && Format(s.resources["ps/a"]) == 0
    ensures (var t := AfterPut(s, "ps/a", Request(Publishing(data).opts, Some(data)), 0);
             t.topics == [Topic("ps/a", Some(data), 0, 0)] && t.resources == s.resources)
  {
    hide FormatOk, Format, FirstValue, CString;
    assert Publishing(data).opts == Publishing([]).opts;
    ZeroFormat(Publishing([]).opts);
    assert data[..|data|] == data;
  }

  lemma PutFetched(s: State, data: seq<byte>)
    requires s.topics == [Topic("ps/a", Some(data), 0, 0)]
    requires "ps/a" in s.resources && FormatOk(s.resources["ps/a"]) && Format(s.resources["ps/a"]) == 0
    ensures Has(s.topics, "ps/a") && Find(s.topics, "ps/a").value == s.topics[0]
    ensures GetReply(s, "ps/a", Some(Fetching), false, 0, 0) == Answer(s.topics[0], 0, false, 0, 0)
  {
    hide FormatOk, Format, FirstValue, Answer;
    ZeroFormat(Fetching.opts);
  }

  lemma TooLong(token: seq<byte>, data: seq<byte>)
    requires |token| == 8 && |data| == 1388
    ensures (var t := Topic("ps/a", Some(data), 0, 0);
             && AnswerSize(token, t, 0, false, 0, 0) > MAX_PDU_SIZE
             && Answer(t, 0, false, 0, 0) == Reply(205, [Opt(CONTENT_TYPE, [])], data))
  {
  }

  // ----- the reply to a POST that makes a topic

  function CreatedReply(uri: string): Reply {
    Reply(201, [Opt(LOCATION_PATH, Ascii(uri))], Phrase(201))
  }

  /** Bytes of the Location-Path option. */
  function PathSize(uri: string): nat {
    (if |uri| < 13 then 1 else if |uri| < 270 then 2 else 3) + |uri|
  }

  lemma CreatedNeeds(token: seq<byte>, uri: string)
    ensures Sorted(CreatedReply(uri).opts, 0) && |Phrase(201)| == 7
    ensures Needed(token, CreatedReply(uri)) == 4 + |token| + PathSize(uri) + 8
    ensures Needed(token, CreatedReply(uri).(payload := [])) == 4 + |token| + PathSize(uri)
  {
    var o := Opt(LOCATION_PATH, Ascii(uri));
    assert [o][1..] == [];
    assert EncodeOpts([o], 0) == Encode(LOCATION_PATH, Ascii(uri)) + [];
  }

  /** Either the path goes in or nothing does. */
  lemma PathOrNone(uri: string, kind: nat, id: (byte, byte), size: nat, token: seq<byte>)
    requires Startable(kind, size, token)
    ensures OptsSent(kind, id, size, token, CreatedReply(uri))
         == if 4 + |token| + PathSize(uri) <= size then CreatedReply(uri).opts else []
  {
    hide Needed, Sorted, Phrase, Ascii, PathSize, Started, WithCode, Sent, DataOf, OptsSent;
    CreatedNeeds(token, uri);
    var r := CreatedReply(uri);
    SentWhole(kind, id, size, token, r);
    SomeSent(kind, id, size, token, r);
    var taken := OptsSent(kind, id, size, token, r);
    if taken != [] {
      assert taken[0] in taken && taken == [taken[0]];
    }
  }

  /** A client that has a topic made reads path and phrase off the reply exactly when
      both fit and the path is not 269 bytes long. */
  lemma CreatedArrives(uri: string, kind: nat, id: (byte, byte), size: nat, token: seq<byte>)
    requires Startable(kind, size, token)
    ensures Arrives(kind, id, size, token, CreatedReply(uri))
       <==> |uri| != 269 && 4 + |token| + PathSize(uri) + 8 <= size
  {
    hide ParseMessage, Sent, OptsSent, DataOf, Needed, Sorted, Phrase, Ascii, Arrives, OffBoundary;
    var r := CreatedReply(uri);
    CreatedNeeds(token, uri);
    PathOrNone(uri, kind, id, size, token);
    PathOffBoundary(uri);
    if |uri| == 269 && OptsSent(kind, id, size, token, r) == r.opts {
      Misread(kind, id, size, token, r);
    } else {
      SentReads(kind, id, size, token, r);
    }
  }

  lemma PathOffBoundary(uri: string)
    ensures OffBoundary([], 0) && (OffBoundary(CreatedReply(uri).opts, 0) <==> |uri| != 269 && |uri| <= 65804)
  {
    assert CreatedReply(uri).opts[1..] == [];
  }

  /** Options that all went in but sit on the boundary are not read back. */
  lemma Misread(kind: nat, id: (byte, byte), size: nat, token: seq<byte>, r: Reply)
    requires Startable(kind, size, token) && r.code <= 505
    requires OptsSent(kind, id, size, token, r) == r.opts && !OffBoundary(r.opts, 0)
    ensures !Arrives(kind, id, size, token, r)
  {
    hide ParseMessage, Sent, OptsSent, DataOf, Serialize, Sorted, OffBoundary;
    SentBuilt(kind, id, size, token, r);
    var m := Meant(kind, id, token, r).(payload := DataOf(Sent(kind, id, size, token, r)));
    if ParseMessage(Serialize(m)).Some? {
      OptionsRead(m);
    }
  }

  /** A path that does not fit is left out of the reply, which still says 2.01. */
  lemma PathMissing(uri: string, kind: nat, id: (byte, byte), size: nat, token: seq<byte>)
    requires Startable(kind, size, token) && 4 + |token| + PathSize(uri) > size
    ensures ParseMessage(Sent(kind, id, size, token, CreatedReply(uri)).bytes)
         == Some(Message(1, kind, 2 * 32 + 1, id, token, [], if 4 + |token| + 8 <= size then Phrase(201) else []))
  {
    hide ParseMessage, OptsSent, Needed, Serialize, Sorted, Phrase, Ascii, PathSize, Started, WithCode;
    var r := CreatedReply(uri);
    CreatedNeeds(token, uri);
    PathOrNone(uri, kind, id, size, token);
    SentReads(kind, id, size, token, r);
    NonePut(uri, kind, id, size, token);
  }

  lemma NonePut(uri: string, kind: nat, id: (byte, byte), size: nat, token: seq<byte>)
    requires Startable(kind, size, token) && OptsSent(kind, id, size, token, CreatedReply(uri)) == []
    ensures DataOf(Sent(kind, id, size, token, CreatedReply(uri))) == if 4 + |token| + 8 <= size then Phrase(201) else []
  {
    hide Ascii, Encode, Phrase;
    var p, r := WithCode(Started(kind, id, size, token), ResponseCode(201)), CreatedReply(uri);
    var o := r.opts[0];
    assert |p.bytes| == 4 + |token| && p.data.None? && p.max == size;
    assert !OptionFits(p, o.number, o.value) && WithOption(p, o.number, o.value) == p;
    assert AddEach(p, r.opts) == AddEach(p, r.opts[1..]) == p;
    PhraseLength();
    NoBytes(p);
  }

  lemma PhraseLength()
    ensures |Phrase(201)| == 7
  {
  }

  lemma NoBytes(p: PduState)
    requires p.Valid() && p.data.None?
    ensures DataOf(p) == []
    ensures forall payload: seq<byte> :: payload != [] && DataFits(p, payload) ==> DataOf(WithData(p, payload)) == payload
  {
    forall payload: seq<byte> | payload != [] && DataFits(p, payload) ensures DataOf(WithData(p, payload)) == payload {
      DataOfAdded(p, payload);
    }
  }

  // ----- answers without options

  /** A code and its phrase reach the client. */
  lemma PlainArrives(code: nat, kind: nat, id: (byte, byte), token: seq<byte>)
    requires Startable(kind, MAX_PDU_SIZE, token) && code in {204, 400, 403, 404, 406, 415}
    ensures ParseMessage(Sent(kind, id, MAX_PDU_SIZE, token, Plain(code)).bytes)
         == Some(Message(1, kind, code / 100 * 32 + code % 100, id, token, [], Phrase(code)))
  {
    hide ParseMessage, Sent, OptsSent, Needed, Phrase, DataOf;
    PhraseShort(code);
    PlainNeeds(token, code);
    SomeSent(kind, id, MAX_PDU_SIZE, token, Plain(code));
    SentReads(kind, id, MAX_PDU_SIZE, token, Plain(code));
  }

  lemma PhraseShort(code: nat)
    ensures |Phrase(code)| <= 26
  {
  }

  lemma PlainNeeds(token: seq<byte>, code: nat)
    ensures Sorted([], 0) && Plainly([]) && Needed(token, Plain(code)) <= 5 + |token| + |Phrase(code)|
  {
  }

  // ----- the answer to a DELETE

  function Pow10(k: nat): nat {
    if k == 0 then 1 else 10 * Pow10(k - 1)
  }

  lemma {:induction false} TextLength(n: nat, k: nat)
    requires n < Pow10(k) && k > 0
    ensures |Text10(n)| <= k
    decreases k
  {
    if n >= 10 {
      TextLength(n / 10, k - 1);
    }
  }

  lemma TenDigits(n: nat)
    requires n < 0x8000_0000
    ensures |Text10(n)| <= 10
  {
    assert Pow10(10) == 10_000_000_000;
    hide Pow10, Text10;
    TextLength(n, 10);
  }

  lemma CountNeeds(token: seq<byte>, n: nat)
    ensures (var r := DeleteReply(n);
             && Sorted(r.opts, 0) && Plainly(r.opts) && r.opts == [Opt(12, [])]
             && Needed(token, r) == 4 + |token| + 1 + 1 + |Text10(n)|
             && Needed(token, r.(payload := [])) == 4 + |token| + 1)
  {
    hide Text10;
    DecimalOfText(n);
    assert [Opt(12, [])] == [Opt(12, [])] + [];
    assert Sorted([], 12) && EncodeOpts([], 12) == [];
    assert |Ascii(Text10(n))| == |Text10(n)| > 0;
    hide Sorted, EncodeOpts, Ascii;
    OptIn(12, [], [], 0);
  }

  /** A text of digits reads back from its bytes. */
  lemma DigitsRead(s: string)
    requires Digits(s)
    ensures Text(Ascii(s)) == s
  {
  }

  /** What a client parses of the answer to a DELETE that has counted to n. */
  function CountSent(n: nat, kind: nat, id: (byte, byte), token: seq<byte>): Option<Message>
    requires Startable(kind, MAX_PDU_SIZE, token)
  {
    ParseMessage(Sent(kind, id, MAX_PDU_SIZE, token, DeleteReply(n)).bytes)
  }

  /** This code, one empty Content-Format, and n in decimal digits. */
  predicate TellsCount(m: Option<Message>, code: nat, n: nat, token: seq<byte>) {
    && m.Some? && m.value.code == code && m.value.token == token && m.value.opts == [Opt(12, [])]
    && (n < 0x8000_0000 ==> Digits(Text(m.value.payload)) && Decimal(Text(m.value.payload)) == n)
  }

  /** The answer to a DELETE: 2.02 when topics are gone and 4.04 otherwise, as text, and
      the decimal number of topics deleted. */
  lemma CountReads(n: nat, kind: nat, id: (byte, byte), token: seq<byte>)
    requires Startable(kind, MAX_PDU_SIZE, token)
    ensures TellsCount(CountSent(n, kind, id, token), if n > 0 then 2 * 32 + 2 else 4 * 32 + 4, n, token)
    ensures CountSent(n, kind, id, token).value.kind == kind && CountSent(n, kind, id, token).value.id == id
  {
    hide ParseMessage, Sent, OptsSent, Needed, Sorted, Plainly, Text10, Ascii, Text, DataOf, Decimal, Digits;
    var r := DeleteReply(n);
    CountNeeds(token, n);
    SomeSent(kind, id, MAX_PDU_SIZE, token, r);
    SentWhole(kind, id, MAX_PDU_SIZE, token, r);
    SentReads(kind, id, MAX_PDU_SIZE, token, r);
    DecimalOfText(n);
    DigitsRead(Text10(n));
    if n < 0x8000_0000 {
      TenDigits(n);
    }
  }

  lemma {:induction false} DropShorter(ts: seq<Topic>, gone: set<string>, u: string)
    requires Has(ts, u) && u in gone
    ensures |Drop(ts, gone)| < |ts|
  {
    if ts[0].path != u {
      DropShorter(ts[1..], gone, u);
    } else {
      DropAtMost(ts[1..], gone);
    }
  }

  lemma {:induction false} DropAtMost(ts: seq<Topic>, gone: set<string>)
    ensures |Drop(ts, gone)| <= |ts|
  {
    if ts != [] {
      DropAtMost(ts[1..], gone);
    }
  }

  /** After a DELETE the client reads 2.02 and how many topics are gone. */
  lemma DeleteOnWire(s: State, u: string, kind: nat, id: (byte, byte), token: seq<byte>)
    requires Invariant(s) && Enabled(s, Deleted(u)) && Startable(kind, MAX_PDU_SIZE, token)
    ensures |AfterDelete(s, u).topics| < |s.topics|
    ensures TellsCount(CountSent(|s.topics| - |AfterDelete(s, u).topics|, kind, id, token), 2 * 32 + 2,
                       |s.topics| - |AfterDelete(s, u).topics|, token)
  {
    hide CountSent, TellsCount, AfterDelete, Invariant, Enabled;
    SomeGone(s, u);
    CountReads(|s.topics| - |AfterDelete(s, u).topics|, kind, id, token);
  }

  lemma SomeGone(s: State, u: string)
    requires Invariant(s) && Enabled(s, Deleted(u))
    ensures |AfterDelete(s, u).topics| < |s.topics|
  {
    hide Has, Drop, Invariant, Falls;
    TargetKnown(s, Deleted(u));
    HasPath(s.topics, u);
    FallsItself(u);
    DropShorter(s.topics, Fallen(s.topics, u), u);
  }

  lemma FallsItself(u: string)
    ensures Falls(u, u)
  {
  }

  /** hnd_get_topic encodes each number into a buffer of three bytes. They hold every
      value of the answer exactly when the observe counter and the time left, where they
      are sent, are below 2^24. */
  lemma BufferSuffices(t: Topic, format: uint16, observed: bool, observe: uint32, at: int)
    ensures (var r := Answer(t, format, observed, observe, at);
             (forall o :: o in r.opts ==> |o.value| <= 3)
             <==> && (observed ==> observe < 0x100_0000)
                  && (r.code == 205 && t.dataMa != 0 ==> (t.dataMa - at) % TWO32 < 0x100_0000))
  {
    hide VarBytes;
    var r, left := Answer(t, format, observed, observe, at), (t.dataMa - at) % TWO32;
    ThreeBytes(format);
    ThreeBytes(observe);
    ThreeBytes(left);
    var o, ct, ma := Opt(OBSERVE, VarBytes(observe)), Opt(CONTENT_TYPE, VarBytes(format)), Opt(MAX_AGE, VarBytes(left));
    var sent := r.code == 205 && t.dataMa != 0;
    assert r.opts == (if observed then [o] else []) + [ct] + (if sent then [ma] else []);
    OnlyThese(r.opts, o, ct, ma, observed, sent);
  }

  lemma OnlyThese(opts: seq<Opt>, o: Opt, ct: Opt, ma: Opt, first: bool, last: bool)
    requires opts == (if first then [o] else []) + [ct] + (if last then [ma] else [])
    ensures (forall x :: x in opts ==> |x.value| <= 3)
       <==> (first ==> |o.value| <= 3) && |ct.value| <= 3 && (last ==> |ma.value| <= 3)
  {
    assert ct in opts && (first ==> o in opts) && (last ==> ma in opts);
    assert forall x :: x in opts ==> x == ct || (first && x == o) || (last && x == ma);
  }

  lemma ThreeBytes(v: nat)
    ensures |VarBytes(v)| <= 3 <==> v < 0x100_0000
  {
    hide Pow2, VarBytes;
    VarBytesLength(v, 3);
    Pow2Constants();
  }
}
