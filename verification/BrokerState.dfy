/** The broker's state and what each handler and monitor makes of it
    (coap-broker.c). */
module BrokerStates {
  import opened Bytes
  import opened Messages
  import opened LinkFormat
  import opened OptionIterator
  import opened Pdus
  import opened Topics
  import opened VarInt

  const LONG_MAX: int := 0x7FFF_FFFF_FFFF_FFFF
  const OBSERVE: uint16 := 6
  const LOCATION_PATH: uint16 := 8
  const CONTENT_TYPE: uint16 := 12
  const MAX_AGE: uint16 := 14
  const LINK_FORMAT := 40

  /** The resource table, the topic list, the two cached expiry times and the last
      reading of the clock. */
  datatype State = State(resources: map<string, Resource>, topics: seq<Topic>,
                         earliestTopic: int, earliestData: int, now: int)

  /** What a handler reads of a request. */
  datatype Request = Request(opts: seq<Opt>, payload: Option<seq<byte>>)

  /** What a handler means to put into the response, in order. */
  datatype Reply = Reply(code: nat, opts: seq<Opt>, payload: seq<byte>)

  /** COAP_RESPONSE_CODE */
  function ResponseCode(code: nat): (c: nat)
    ensures code <= 505 ==> c < 0x100
  {
    code / 100 * 32 + code % 100
  }

  /** What it makes of the response: the handlers do not look at what coap_add_option
      and coap_add_data return, so what does not fit is left out. */
  function WithReply(p: PduState, r: Reply): (q: PduState)
    requires p.Valid() && r.code <= 505
    ensures q.Valid()
  {
    WithData(AddEach(WithCode(p, ResponseCode(r.code)), r.opts), r.payload)
  }

  const Initial: State :=
    State(map["ps" := Resource("ps", [Attr("rt", "core.ps"), Attr("ct", "40")])], [], LONG_MAX, LONG_MAX, 0)

  predicate IsTopic(uri: string) {
    "ps/" <= uri
  }

  // ----- values read off requests and attributes

  /** The number in the first option of this type. */
  function FirstValue(opts: seq<Opt>, number: uint16): Option<uint32> {
    var o := FirstOf(opts, number);
    if o.None? then None else Some(Value(o.value.value) % TWO32)
  }

  predicate Digits(s: string) {
    forall i :: 0 <= i < |s| ==> '0' <= s[i] <= '9'
  }

  function Decimal(s: string): nat
    requires Digits(s)
  {
    if s == [] then 0 else 10 * Decimal(s[..|s| - 1]) + (s[|s| - 1] - '0') as nat
  }

  /** atoi: strtol, which stops at the largest long, cut down to 32 bits. */
  function Atoi(s: string): int
    requires Digits(s)
  {
    var low := Min(Decimal(s), LONG_MAX) % 0x1_0000_0000;
    if low < 0x8000_0000 then low else low - 0x1_0000_0000
  }

  /** A ct attribute that names a content format. */
  predicate FormatOk(r: Resource) {
    var ct := FindAttr(r.attrs, "ct");
    ct.Some? && Digits(ct.value.value) && 0 <= Atoi(ct.value.value) <= 65535
  }

  function Format(r: Resource): (n: nat)
    requires FormatOk(r)
    ensures n <= 65535
  {
    Atoi(FindAttr(r.attrs, "ct").value.value)
  }

  function Text(bs: seq<byte>): string {
    seq(|bs|, i requires 0 <= i < |bs| => bs[i] as char)
  }

  /** The resource the payload of a POST describes. */
  function Described(parent: string, req: Request): Option<Resource> {
    Made(parent, LinkOf(Text(CString(if req.payload.None? then [] else req.payload.value))))
  }

  /** When a topic posted now expires. */
  function TopicExpiry(req: Request, at: int): int {
    var ma := FirstValue(req.opts, MAX_AGE);
    if ma.None? || ma.value < 1 then 0 else at + ma.value
  }

  function DataExpiry(req: Request, at: int): int {
    var ma := FirstValue(req.opts, MAX_AGE);
    if ma.None? then 0 else ma.value + at
  }

  function Earlier(expiry: int, earliest: int): int {
    if expiry < earliest && expiry != 0 then expiry else earliest
  }

  // ----- replies

  function Phrase(code: nat): seq<byte> {
    Ascii(match code
          case 201 => "Created"
          case 204 => "Changed"
          case 400 => "Bad Request"
          case 403 => "Forbidden"
          case 404 => "Not Found"
          case 406 => "Not Acceptable"
          case 415 => "Unsupported Content-Format"
          case _ => "")
  }

  function Plain(code: nat): Reply {
    Reply(code, [], Phrase(code))
  }

  function NoContent(opts: seq<Opt>): Reply {
    Reply(204, opts, Ascii("No Content"))
  }

  // ----- POST (hnd_post_broker and hnd_post_topic)

  datatype Post = Malformed | NotAcceptable | Exists(uri: string) | Creates(resource: Resource)

  function Judge(s: State, parent: string, req: Request): Post {
    var r := Described(parent, req);
    if r.None? || FirstValue(req.opts, CONTENT_TYPE) != Some(LINK_FORMAT) then Malformed
    else if FindAttr(r.value.attrs, "ct").None? then Malformed
    else if !FormatOk(r.value) then NotAcceptable
    else if r.value.uri in s.resources then Exists(r.value.uri)
    else Creates(r.value)
  }

  function AfterPost(s: State, parent: string, req: Request, at: int): State {
    var ma := TopicExpiry(req, at);
    match Judge(s, parent, req)
    case Exists(uri) =>
      s.(topics := WithInfo(s.topics, uri, ma), earliestTopic := Earlier(ma, s.earliestTopic), now := at)
    case Creates(r) =>
      s.(resources := s.resources[r.uri := r], topics := Upsert(s.topics, r.uri, |r.uri|, ma),
         earliestTopic := Earlier(ma, s.earliestTopic), now := at)
    case _ => s.(now := at)
  }

  function PostReply(s: State, parent: string, req: Request): Reply {
    ReplyTo(Judge(s, parent, req))
  }

  function ReplyTo(outcome: Post): (r: Reply)
    ensures r.code <= 505
  {
    match outcome
    case Malformed => Plain(400)
    case NotAcceptable => Plain(406)
    case Exists(_) => Plain(403)
    case Creates(r) => Reply(201, [Opt(LOCATION_PATH, Ascii(r.uri))], Phrase(201))
  }

  // ----- GET (hnd_get_topic)

  predicate Expired(expiry: int, at: int) {
    expiry != 0 && expiry < at
  }

  function GetReply(s: State, uri: string, req: Option<Request>, observed: bool, observe: uint32, at: int): Reply
    requires uri in s.resources && FormatOk(s.resources[uri])
  {
    var notification := observed && req.None?;
    var format := Format(s.resources[uri]);
    var ct := if req.None? then None else FirstValue(req.value.opts, CONTENT_TYPE);
    if !notification && ct.None? then Plain(400)
    else if !notification && ct.value != format then Plain(415)
    else
      var t := Find(s.topics, uri);
      if t.None? then Plain(404) else Answer(t.value, format, observed, observe, at)
  }

  function Answer(t: Topic, format: nat, observed: bool, observe: uint32, at: int): Reply {
    var opts := (if observed then [Opt(OBSERVE, VarBytes(observe))] else []) + [Opt(CONTENT_TYPE, VarBytes(format))];
    if t.data.None? || Expired(t.dataMa, at) then NoContent(opts)
    else if t.dataMa == 0 then Reply(205, opts, t.data.value)
    else Reply(205, opts + [Opt(MAX_AGE, VarBytes((t.dataMa - at) % TWO32))], t.data.value)
  }

  // ----- PUT (hnd_put_topic)

  function PutCode(s: State, uri: string, req: Request): nat
    requires uri in s.resources && FormatOk(s.resources[uri])
  {
    var ct := FirstValue(req.opts, CONTENT_TYPE);
    if ct.None? then 400
    else if ct.value != Format(s.resources[uri]) then 415
    else if !Has(s.topics, uri) then 404
    else 204
  }

  function Size(payload: Option<seq<byte>>): nat {
    if payload.None? then 0 else |payload.value|
  }

  function AfterPut(s: State, uri: string, req: Request, at: int): State
    requires uri in s.resources && FormatOk(s.resources[uri])
  {
    var ma := DataExpiry(req, at);
    if PutCode(s, uri, req) != 204 then s.(now := at)
    else s.(topics := WithNewData(s.topics, uri, ma, req.payload, Size(req.payload)),
            earliestData := Earlier(ma, s.earliestData), now := at)
  }

  // ----- DELETE (hnd_delete_topic)

  /** strstr */
  predicate Contains(s: string, sub: string) {
    exists i :: 0 <= i <= |s| && StandsAt(s, sub, i)
  }

  predicate StandsAt(s: string, sub: string, i: int) {
    0 <= i <= |s| - |sub| && s[i..i + |sub|] == sub
  }

  /** The topics a DELETE of u takes along. */
  predicate Falls(p: string, u: string) {
    p == u || Contains(p, u + "/")
  }

  ghost function Fallen(ts: seq<Topic>, u: string): set<string> {
    set p | p in PathsOf(ts) && Falls(p, u)
  }

  /** The topics whose path is not among these, in order. */
  ghost function Drop(ts: seq<Topic>, gone: set<string>): (us: seq<Topic>)
    ensures forall t :: t in us <==> t in ts && t.path !in gone
  {
    if ts == [] then []
    else (if ts[0].path in gone then [] else [ts[0]]) + Drop(ts[1..], gone)
  }

  function Text10(n: nat): string {
    if n < 10 then [Digit(n)] else Text10(n / 10) + [Digit(n % 10)]
  }

  function Digit(n: nat): char
    requires n < 10
  {
    "0123456789"[n]
  }

  /** The number of deleted topics goes out as text. */
  function DeleteReply(counter: nat): Reply {
    Reply(if counter > 0 then 202 else 404, [Opt(CONTENT_TYPE, [])], Ascii(Text10(counter)))
  }

  ghost function AfterDelete(s: State, u: string): State {
    if !Has(s.topics, u) then s
    else s.(topics := Drop(s.topics, Fallen(s.topics, u)), resources := s.resources - Fallen(s.topics, u))
  }

  // ----- MQTT (msgarrvd)

  function AfterArrival(s: State, name: string, payload: seq<byte>): State {
    var t := Find(s.topics, name);
    if name !in s.resources || t.None? || t.value.data == Some(CString(payload)) then s
    else s.(topics := WithNewData(s.topics, name, 0, Some(payload), |payload|))
  }

  // ----- the monitors

  /** The clock only moves forward from `from`. */
  predicate Forward(from: int, readings: seq<int>) {
    && (forall i :: 0 <= i < |readings| ==> from <= readings[i])
    && (forall i, j :: 0 <= i < j < |readings| ==> readings[i] <= readings[j])
  }

  /** One reading on entry and one for each topic. */
  predicate Readings(s: State, readings: seq<int>) {
    |readings| == |s.topics| + 1 && Forward(s.now, readings)
  }

  function Cleared(t: Topic, at: int): Topic {
    if Expired(t.dataMa, at) then t.(data := None, dataMa := 0) else t
  }

  function Sweep(ts: seq<Topic>, at: seq<int>): (us: seq<Topic>)
    requires |at| == |ts|
    ensures |us| == |ts| && forall i :: 0 <= i < |ts| ==> us[i] == Cleared(ts[i], at[i])
  {
    seq(|ts|, i requires 0 <= i < |ts| => Cleared(ts[i], at[i]))
  }

  /** The next cached value: the least expiry time but for none and the old one. */
  function NextData(ts: seq<Topic>, stale: int): int {
    if ts == [] then LONG_MAX
    else
      var t, next := ts[|ts| - 1], NextData(ts[..|ts| - 1], stale);
      if t.dataMa != 0 && t.dataMa != stale && t.dataMa < next then t.dataMa else next
  }

  function NextTopic(ts: seq<Topic>, stale: int): int {
    if ts == [] then LONG_MAX
    else
      var t, next := ts[|ts| - 1], NextTopic(ts[..|ts| - 1], stale);
      if t.topicMa != 0 && t.topicMa != stale && t.topicMa < next then t.topicMa else next
  }

  /** topicDataMAMonitor */
  function AfterDataMonitor(s: State, readings: seq<int>): State
    requires Readings(s, readings)
  {
    var late := s.(now := readings[|readings| - 1]);
    if s.topics == [] || s.earliestData >= readings[0] then late
    else late.(topics := Sweep(s.topics, readings[1..]), earliestData := NextData(s.topics, s.earliestData))
  }

  /** The topics that have not expired at their readings. */
  function Kept(ts: seq<Topic>, at: seq<int>): seq<Topic>
    requires |at| == |ts|
  {
    if ts == [] then []
    else
      var n := |ts| - 1;
      Kept(ts[..n], at[..n]) + if Expired(ts[n].topicMa, at[n]) then [] else [ts[n]]
  }

  /** The paths of those that have. */
  ghost function Overdue(ts: seq<Topic>, at: seq<int>): set<string>
    requires |at| == |ts|
  {
    set i | 0 <= i < |ts| && Expired(ts[i].topicMa, at[i]) :: ts[i].path
  }

  /** topicMAMonitor */
  ghost function AfterTopicMonitor(s: State, readings: seq<int>): State
    requires Readings(s, readings)
  {
    var late := s.(now := readings[|readings| - 1]);
    if s.topics == [] || s.earliestTopic >= readings[0] then late
    else
      var gone := Overdue(s.topics, readings[1..]);
      late.(topics := Kept(s.topics, readings[1..]), resources := s.resources - gone,
            earliestTopic := NextTopic(s.topics, s.earliestTopic))
  }
}
