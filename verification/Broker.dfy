/** The broker's handlers and monitors, working on its globals (coap-broker.c). */
module Brokers {
  import opened Bytes
  import opened LinkFormat
  import opened Messages
  import opened OptionIterator
  import opened Pdus
  import opened TopicLists
  import opened Topics
  import opened VarInt
  import opened BrokerStates
  import opened BrokerRuns

  // ----- responses

  /** A code with its phrase. */
  method AnswerPlainly(response: Pdu, code: nat)
    requires response.Valid() && code <= 505
    modifies response, response.buf
    ensures response.Valid() && response.View() == WithReply(old(response.View()), Plain(code))
  {
    hide Phrase;
    response.SetCode(ResponseCode(code));
    var _ := response.AddData(Phrase(code));
  }

  /** One more option behind those of `opts`. */
  method AddNext(response: Pdu, number: uint16, value: seq<byte>, ghost p: PduState, ghost opts: seq<Opt>)
    requires response.Valid() && p.Valid() && response.View() == AddEach(p, opts)
    modifies response, response.buf
    ensures response.Valid() && response.View() == AddEach(p, opts + [Opt(number, value)])
  {
    hide WithOption, OptionFits, AddEach;
    EachAppended(p, opts, Opt(number, value));
    var _ := response.AddOption(number, value);
  }

  /** Code and payload, which complete a response. */
  method Finish(response: Pdu, code: nat, payload: seq<byte>, ghost p: PduState, ghost opts: seq<Opt>)
    requires response.Valid() && p.Valid() && response.View() == AddEach(p, opts) && code <= 505
    modifies response, response.buf
    ensures response.Valid() && response.View() == WithReply(p, Reply(code, opts, payload))
  {
    hide AddEach, WithData, DataFits, WithCode;
    CodeAfterEach(p, opts, ResponseCode(code));
    response.SetCode(ResponseCode(code));
    var _ := response.AddData(payload);
  }

  method AnswerCreated(response: Pdu, uri: string)
    requires response.Valid()
    modifies response, response.buf
    ensures response.Valid()
    ensures response.View() == WithReply(old(response.View()), Reply(201, [Opt(LOCATION_PATH, Ascii(uri))], Phrase(201)))
  {
    hide Phrase, WithReply, Ascii;
    ghost var p := response.View();
    assert [] + [Opt(LOCATION_PATH, Ascii(uri))] == [Opt(LOCATION_PATH, Ascii(uri))];
    AddNext(response, LOCATION_PATH, Ascii(uri), p, []);
    Finish(response, 201, Phrase(201), p, [Opt(LOCATION_PATH, Ascii(uri))]);
  }

  /** The response to a POST. */
  method AnswerPost(response: Pdu, outcome: BrokerStates.Post)
    requires response.Valid()
    modifies response, response.buf
    ensures response.Valid() && response.View() == WithReply(old(response.View()), ReplyTo(outcome))
  {
    match outcome {
      case Malformed =>
        AnswerPlainly(response, 400);
      case NotAcceptable =>
        AnswerPlainly(response, 406);
      case Exists(_) =>
        AnswerPlainly(response, 403);
      case Creates(resource) =>
        AnswerCreated(response, resource.uri);
    }
  }

  /** hnd_get_topic once it has a copy of the topic. */
  method AnswerTopic(response: Pdu, t: Topic, format: uint16, observed: bool, observe: uint32, at: int)
    requires response.Valid()
    modifies response, response.buf
    ensures Answer(t, format, observed, observe, at).code <= 505
    ensures response.Valid() && response.View() == WithReply(old(response.View()), Answer(t, format, observed, observe, at))
  {
    hide VarBytes, WithReply, AddEach, Ascii;
    ghost var p, opts: seq<Opt> := response.View(), [];
    NoneAdded(p);
    if observed {
      AddNext(response, OBSERVE, VarBytes(observe), p, opts);
      opts := opts + [Opt(OBSERVE, VarBytes(observe))];
    }
    AddNext(response, CONTENT_TYPE, VarBytes(format), p, opts);
    opts := opts + [Opt(CONTENT_TYPE, VarBytes(format))];
    if t.data.None? {
      assert Answer(t, format, observed, observe, at) == NoContent(opts);
      Finish(response, 204, Ascii("No Content"), p, opts);
      return;
    }
    var remaining := t.dataMa - at;
    if remaining < 0 && t.dataMa != 0 {
      assert Answer(t, format, observed, observe, at) == NoContent(opts);
      Finish(response, 204, Ascii("No Content"), p, opts);
      return;
    }
    if t.dataMa != 0 {
      AddNext(response, MAX_AGE, VarBytes(remaining % TWO32), p, opts);
      opts := opts + [Opt(MAX_AGE, VarBytes(remaining % TWO32))];
    }
    assert Answer(t, format, observed, observe, at) == Reply(205, opts, t.data.value);
    Finish(response, 205, t.data.value, p, opts);
  }

  /** The end of hnd_delete_topic; the counter is printed into as many digits as it takes. */
  method AnswerCount(response: Pdu, counter: nat)
    requires response.Valid()
    modifies response, response.buf
    ensures response.Valid() && response.View() == WithReply(old(response.View()), DeleteReply(counter))
  {
    hide WithReply, AddEach, Ascii;
    ghost var p := response.View();
    NoneAdded(p);
    var digits := CountDigits(counter);
    assert Text10(counter)[..digits] == Text10(counter);
    assert [] + [Opt(CONTENT_TYPE, [])] == [Opt(CONTENT_TYPE, [])];
    AddNext(response, CONTENT_TYPE, [], p, []);
    Finish(response, if counter > 0 then 202 else 404, Ascii(Text10(counter)[..digits]), p, [Opt(CONTENT_TYPE, [])]);
  }

  lemma NoneAdded(p: PduState)
    requires p.Valid()
    ensures AddEach(p, []) == p
  {
  }

  /** The loops over a request's options: the first of each of two kinds. */
  method FirstTwo(opts: seq<Opt>, first: uint16, second: uint16) returns (a: Option<uint32>, b: Option<uint32>)
    ensures a == FirstValue(opts, first) && b == FirstValue(opts, second)
  {
    hide FirstValue, FirstOf, Value;
    a, b := None, None;
    var i := 0;
    assert opts[0..] == opts;
    while i < |opts|
      invariant i <= |opts|
      invariant FirstValue(opts, first) == if a.Some? then a else FirstValue(opts[i..], first)
      invariant FirstValue(opts, second) == if b.Some? then b else FirstValue(opts[i..], second)
    {
      FirstValueStep(opts, i, first);
      FirstValueStep(opts, i, second);
      if opts[i].number == first && a.None? {
        a := Some(Value(opts[i].value) % TWO32);
      }
      if opts[i].number == second && b.None? {
        b := Some(Value(opts[i].value) % TWO32);
      }
      if a.Some? && b.Some? {
        return;
      }
      i := i + 1;
    }
    FirstValueNone(opts, first);
    FirstValueNone(opts, second);
  }

  lemma FirstValueStep(opts: seq<Opt>, i: nat, number: uint16)
    requires i < |opts|
    ensures FirstValue(opts[i..], number)
         == if opts[i].number == number then Some(Value(opts[i].value) % TWO32) else FirstValue(opts[i + 1..], number)
  {
  }

  lemma FirstValueNone(opts: seq<Opt>, number: uint16)
    ensures FirstValue(opts[|opts|..], number) == None
  {
  }

  /** Whether the value of a ct attribute is the number of a content format. */
  method CheckFormat(value: string) returns (ok: bool)
    ensures ok <==> Digits(value) && 0 <= Atoi(value) <= 65535
  {
    for i := 0 to |value|
      invariant Digits(value[..i])
    {
      if !('0' <= value[i] <= '9') {
        return false;
      }
    }
    assert value[..|value|] == value;
    var n := Atoi(value);
    ok := !(n < 0 || n > 65535);
  }

  /** How many digits a counter takes. */
  method CountDigits(counter: nat) returns (digits: nat)
    ensures digits == |Text10(counter)|
  {
    var n: nat := if counter == 0 then 1 else counter;
    digits := 0;
    while n != 0
      invariant digits + (if n == 0 then 0 else |Text10(n)|) == |Text10(counter)|
    {
      n := n / 10;
      digits := digits + 1;
    }
  }

  class Broker {
    var resources: map<string, Resource>
    const topicDB: TopicList
    var earliestTopic: int
    var earliestData: int
    ghost var now: int

    ghost function View(): State
      reads this, topicDB
    {
      State(resources, topicDB.topics, earliestTopic, earliestData, now)
    }

    ghost predicate Valid()
      reads this, topicDB, topicDB.spine
    {
      topicDB.Valid() && Invariant(View())
    }

    constructor ()
      ensures Valid() && View() == Initial && fresh(topicDB)
    {
      resources := Initial.resources;
      topicDB := new TopicList();
      earliestTopic, earliestData, now := LONG_MAX, LONG_MAX, 0;
      new;
      InitialHolds();
    }

    /** The checks of hnd_post_broker and hnd_post_topic. */
    method Examine(parent: string, req: Request, ct: Option<uint32>) returns (outcome: Post)
      requires ct == FirstValue(req.opts, CONTENT_TYPE)
      ensures outcome == Judge(View(), parent, req)
    {
      var described := ParseLinkFormat(Text(CString(if req.payload.None? then [] else req.payload.value)), parent);
      assert described == Described(parent, req);
      hide FirstValue, Described, FindAttr, Atoi, Digits, Text, CString;
      if described.None? || ct != Some(LINK_FORMAT) {
        return Malformed;
      }
      var attr := FindAttr(described.value.attrs, "ct");
      if attr.None? {
        return Malformed;
      }
      var valid := CheckFormat(attr.value.value);
      if !valid {
        return NotAcceptable;
      }
      if described.value.uri in resources {
        return Exists(described.value.uri);
      }
      outcome := Creates(described.value);
    }

    /** A POST for a topic that is there already. */
    method Renew(uri: string, expiry: int)
      requires topicDB.Valid()
      modifies `earliestTopic, topicDB`topics, topicDB.spine
      ensures topicDB.Valid() && topicDB.topics == WithInfo(old(topicDB.topics), uri, expiry)
      ensures earliestTopic == Earlier(expiry, old(earliestTopic))
    {
      if expiry < earliestTopic && expiry != 0 {
        earliestTopic := expiry;
      }
      var _ := topicDB.UpdateTopicInfo(uri, expiry);
    }

    /** A POST for a new topic. */
    method Enrol(resource: Resource, expiry: int)
      requires topicDB.Valid()
      modifies `resources, `earliestTopic, topicDB, topicDB.spine
      ensures topicDB.Valid() && topicDB.topics == Upsert(old(topicDB.topics), resource.uri, |resource.uri|, expiry)
      ensures earliestTopic == Earlier(expiry, old(earliestTopic))
      ensures resources == old(resources)[resource.uri := resource]
    {
      if expiry < earliestTopic && expiry != 0 {
        earliestTopic := expiry;
      }
      resources := resources[resource.uri := resource];
      var _ := topicDB.AddTopicWEC(resource.uri, |resource.uri|, expiry);
    }

    /** hnd_post_broker and hnd_post_topic */
    method Post(parent: string, req: Request, at: int, response: Pdu)
      requires Valid() && Enabled(View(), Posted(parent, req, at)) && response.Valid()
      modifies this, topicDB, topicDB.spine, response, response.buf
      ensures Valid() && View() == AfterPost(old(View()), parent, req, at)
      ensures response.Valid() && response.View() == WithReply(old(response.View()), PostReply(old(View()), parent, req))
    {
      hide WithReply, Pdu.Valid, Pdu.View, ReplyTo, Judge, AfterPost, Enabled, Invariant;
      var outcome := Accept(parent, req, at);
      AnswerPost(response, outcome);
    }

    /** What they do to the broker. */
    method Accept(parent: string, req: Request, at: int) returns (outcome: BrokerStates.Post)
      requires Valid() && Enabled(View(), Posted(parent, req, at))
      modifies this, topicDB, topicDB.spine
      ensures Valid() && View() == AfterPost(old(View()), parent, req, at)
      ensures outcome == Judge(old(View()), parent, req)
    {
      hide Invariant, Judge, FirstValue, WithInfo, Upsert, Linked, Hold, FreeBut, Clean, Enabled, Earlier;
      PostKeeps(View(), parent, req, at);
      var ct, ma := FirstTwo(req.opts, CONTENT_TYPE, MAX_AGE);
      var expiry := if ma.None? || ma.value < 1 then 0 else at + ma.value;
      outcome := Examine(parent, req, ct);
      now := at;
      match outcome {
        case Exists(uri) =>
          Renew(uri, expiry);
        case Creates(resource) =>
          Enrol(resource, expiry);
        case _ =>
      }
    }

    /** hnd_get_topic before it looks at the topic; a notification is not checked. */
    method Precheck(format: nat, req: Option<Request>, observed: bool) returns (code: Option<nat>)
      ensures (var ct := if req.None? then None else FirstValue(req.value.opts, CONTENT_TYPE);
               code == if observed && req.None? then None
                       else if ct.None? then Some(400)
                       else if ct.value != format then Some(415) else None)
    {
      var ct: Option<uint32>, obs: Option<uint32> := None, None;
      if req.Some? {
        ct, obs := FirstTwo(req.value.opts, CONTENT_TYPE, OBSERVE);
      }
      hide FirstValue;
      var notification := observed && req.None?;
      var registration := observed && req.Some? && obs == Some(0);
      code := None;
      if (ct.Some? || (ct.Some? && registration)) && !notification {
        if format != ct.value {
          code := Some(415);
        }
      } else if (ct.None? || (ct.None? && registration)) && !notification {
        code := Some(400);
      }
    }

    /** hnd_get_topic; no request means a notification is due. */
    method Get(uri: string, req: Option<Request>, observed: bool, observe: uint32, at: int, response: Pdu)
      requires Valid() && Enabled(View(), Got(uri, at)) && response.Valid()
      modifies `now, topicDB.spine`nodeLock, response, response.buf
      ensures Valid() && View() == Next(old(View()), Got(uri, at))
      ensures GetReply(old(View()), uri, req, observed, observe, at).code <= 505
      ensures response.Valid()
      ensures response.View() == WithReply(old(response.View()), GetReply(old(View()), uri, req, observed, observe, at))
    {
      hide Invariant, FirstValue, Format, FormatOk, Phrase, Has, Linked, Hold, FreeBut, Clean, Enabled, Answer, WithReply, Pdu.Valid, Pdu.View;
      StepKeeps(View(), Got(uri, at));
      FormatKnown(View(), Got(uri, at));
      now := at;
      var format := Format(resources[uri]);
      var code := Precheck(format, req, observed);
      if code.Some? {
        AnswerPlainly(response, code.value);
      } else {
        var temp := topicDB.CloneTopic(uri);
        if temp.None? {
          AnswerPlainly(response, 404);
        } else {
          AnswerTopic(response, temp.value, format, observed, observe, at);
        }
      }
    }

    /** hnd_put_topic up to the update. */
    method CheckPut(uri: string, req: Request, ct: Option<uint32>) returns (code: nat)
      requires topicDB.Valid() && uri in resources && FormatOk(resources[uri])
      requires ct == FirstValue(req.opts, CONTENT_TYPE)
      modifies topicDB.spine`nodeLock
      ensures topicDB.Valid() && code == PutCode(View(), uri, req) <= 505
    {
      hide FirstValue, Format, FormatOk, Linked, Hold, FreeBut, Clean, Has;
      if ct.None? {
        return 400;
      }
      if Format(resources[uri]) != ct.value {
        return 415;
      }
      var temp := topicDB.CloneTopic(uri);
      code := if temp.None? then 404 else 204;
    }

    /** The update of hnd_put_topic. */
    method Record(uri: string, expiry: int, payload: Option<seq<byte>>)
      requires topicDB.Valid() && Has(topicDB.topics, uri)
      modifies `earliestData, topicDB`topics, topicDB.spine
      ensures topicDB.Valid() && topicDB.topics == WithNewData(old(topicDB.topics), uri, expiry, payload, Size(payload))
      ensures earliestData == Earlier(expiry, old(earliestData))
    {
      var ok := topicDB.UpdateTopicData(uri, expiry, payload, Size(payload));
      if ok {
        if expiry < earliestData && expiry != 0 {
          earliestData := expiry;
        }
      }
    }

    /** hnd_put_topic */
    method Put(uri: string, req: Request, at: int, response: Pdu)
      requires Valid() && Enabled(View(), BrokerRuns.Put(uri, req, at)) && response.Valid()
      modifies this, topicDB, topicDB.spine, response, response.buf
      ensures Valid() && View() == AfterPut(old(View()), uri, req, at)
      ensures response.Valid() && response.View() == WithReply(old(response.View()), Plain(PutCode(old(View()), uri, req)))
    {
      hide WithReply, Pdu.Valid, Pdu.View, Invariant, FirstValue, PutCode, FormatOk, Phrase, WithNewData, Has, Linked, Hold, FreeBut, Clean, Enabled, Earlier;
      PutKeeps(View(), uri, req, at);
      TargetKnown(View(), BrokerRuns.Put(uri, req, at));
      var ma, ct := FirstTwo(req.opts, MAX_AGE, CONTENT_TYPE);
      var expiry := if ma.None? then 0 else ma.value + at;
      var code := CheckPut(uri, req, ct);
      now := at;
      if code == 204 {
        Record(uri, expiry, req.payload);
      }
      AnswerPlainly(response, code);
    }

    /** msgarrvd */
    method Arrive(name: string, payload: seq<byte>)
      requires Valid() && Enabled(View(), Arrived(name, payload))
      modifies topicDB, topicDB.spine
      ensures Valid() && View() == AfterArrival(old(View()), name, payload)
    {
      hide Invariant, WithNewData, CString, Has, Linked, Hold, FreeBut, Clean, Enabled;
      ArrivalKeeps(View(), name, payload);
      TargetKnown(View(), Arrived(name, payload));
      if name in resources {
        var temp := topicDB.CloneTopic(name);
        if temp.value.data != Some(CString(payload)) {
          var _ := topicDB.UpdateTopicData(name, 0, Some(payload), |payload|);
        }
      }
    }

    /** topicDataMAMonitor, given what the clock says on entry and at each topic. */
    method DataMonitor(readings: seq<int>)
      requires Valid() && Readings(View(), readings)
      modifies `earliestData, `now, topicDB`topics, topicDB.spine
      ensures Valid() && View() == AfterDataMonitor(old(View()), readings)
    {
      hide Invariant, Linked, FreeBut, Clean, NextData, Sweep;
      ghost var s := View();
      DataMonitorKeeps(s, readings);
      now := readings[|readings| - 1];
      if topicDB.head != null && earliestData < readings[0] {
        var next := ScanData(readings[1..], s);
        earliestData := next;
      }
      assert topicDB.head == null <==> s.topics == [] by { topicDB.HeadIsFirst(); }
    }

    /** The scan of topicDataMAMonitor. */
    method ScanData(at: seq<int>, ghost s: State) returns (next: int)
      requires topicDB.Valid() && Invariant(s) && s.topics == topicDB.topics && s.earliestData == earliestData
      requires |at| == |s.topics|
      modifies topicDB`topics, topicDB.spine
      ensures topicDB.Valid() && topicDB.topics == Sweep(s.topics, at) && next == NextData(s.topics, s.earliestData)
    {
      hide Invariant, Linked, FreeBut, Clean, Hold, HeldAt, NextData, Sweep, WithoutData, Expired;
      topicDB.HeadIsFirst();
      NoneSeen(s.topics, s.earliestData);
      var current, k := topicDB.head, 0;
      next := LONG_MAX;
      while current != null
        invariant topicDB.Valid() && k <= |topicDB.spine| == |s.topics| && current == At(topicDB.spine, k)
        invariant Swept(s.topics, topicDB.topics, at, k)
        invariant next == NextData(s.topics[..k], s.earliestData)
        decreases |topicDB.spine| - k
      {
        ghost var before := topicDB.topics;
        var after := topicDB.Open(current, k);
        SeenOne(s.topics, before, at, k, s.earliestData);
        if current.dataMa != 0 && current.dataMa != earliestData && current.dataMa < next {
          next := current.dataMa;
        }
        var expired := Expired(current.dataMa, at[k]);
        topicDB.Close(current, k);
        if expired {
          SweptIndexOf(s, before, at, k);
          var _ := topicDB.DeleteTopicData(current.path);
        }
        current, k := after, k + 1;
      }
      AllSwept(s.topics, topicDB.topics, at);
    }

    /** topicMAMonitor, given what the clock says on entry and at each topic. */
    method TopicMonitor(readings: seq<int>)
      requires Valid() && Readings(View(), readings)
      modifies `resources, `earliestTopic, `now, topicDB, topicDB.spine
      ensures Valid() && View() == AfterTopicMonitor(old(View()), readings)
    {
      hide Invariant, Linked, FreeBut, Clean, NextTopic, Kept, Overdue;
      ghost var s := View();
      TopicMonitorKeeps(s, readings);
      topicDB.HeadIsFirst();
      now := readings[|readings| - 1];
      if topicDB.head != null && earliestTopic < readings[0] {
        var next := ScanTopics(readings[1..], s);
        earliestTopic := next;
      }
    }

    /** The scan of topicMAMonitor. The locks on an expired topic are given back only
        when its resource is found, so that they are not left behind rests on the
        agreement of the list and the table. */
    method ScanTopics(at: seq<int>, ghost s: State) returns (next: int)
      requires topicDB.Valid() && Invariant(s) && s.topics == topicDB.topics && s.earliestTopic == earliestTopic
      requires |at| == |s.topics| && resources == s.resources
      modifies `resources, topicDB, topicDB.spine
      ensures topicDB.Valid() && topicDB.topics == Kept(s.topics, at)
      ensures resources == s.resources - Overdue(s.topics, at) && next == NextTopic(s.topics, s.earliestTopic)
    {
      hide Invariant, Linked, FreeBut, Clean, Hold, HeldAt, NextTopic, Kept, Overdue, Without, Expired, Has, IndexOf, DropAt;
      topicDB.HeadIsFirst();
      WalkStarts(s, at);
      var current, k := topicDB.head, 0;
      ghost var j := 0;
      next := LONG_MAX;
      while current != null
        invariant topicDB.Valid() && k <= |s.topics| && j <= |topicDB.spine| && current == At(topicDB.spine, j)
        invariant |topicDB.spine| - j == |s.topics| - k
        invariant Walked(s.topics, topicDB.topics, at, k, j)
        invariant resources == s.resources - Overdue(s.topics[..k], at[..k])
        invariant next == NextTopic(s.topics[..k], s.earliestTopic)
        invariant forall i :: 0 <= i < |topicDB.spine| ==> topicDB.spine[i] in old(topicDB.spine)
        decreases |s.topics| - k
      {
        WalkOn(s, topicDB.topics, at, k, j);
        DropShifts(topicDB.spine, j);
        var after := topicDB.Open(current, j);
        if current.topicMa != 0 && current.topicMa != earliestTopic && current.topicMa < next {
          next := current.topicMa;
        }
        if Expired(current.topicMa, at[k]) {
          RemoveTopic(current, j);
        } else {
          topicDB.Close(current, j);
          j := j + 1;
        }
        current, k := after, k + 1;
      }
      WalkEnds(s, topicDB.topics, at, j);
    }

    /** What topicMAMonitor does with an expired topic whose locks it holds: it gives
        them back exactly when the table has a resource for the topic. */
    method RemoveTopic(node: Node, ghost j: nat)
      requires Linked(topicDB.head, topicDB.spine) && Hold(topicDB.spine, topicDB.topics) && Clean(topicDB.topics)
      requires j < |topicDB.spine| && node == topicDB.spine[j] && HeldAt(topicDB.spine, j)
      requires Has(topicDB.topics, node.path) && IndexOf(topicDB.topics, node.path) == j
      modifies `resources, topicDB, topicDB.spine
      ensures topicDB.Valid() <==> node.path in old(resources)
      ensures node.path !in old(resources) ==>
        HeldAt(topicDB.spine, j) && topicDB.spine == old(topicDB.spine) && topicDB.topics == old(topicDB.topics)
      ensures topicDB.Valid() ==>
        && topicDB.topics == Without(old(topicDB.topics), node.path)
        && resources == old(resources) - {node.path}
        && topicDB.spine == DropAt(old(topicDB.spine), j)
      ensures forall i :: 0 <= i < |topicDB.spine| ==> topicDB.spine[i] in old(topicDB.spine)
    {
      hide Hold, Linked, Clean, Without, Has, IndexOf, DropAt;
      assert topicDB.spine[j].nodeLock == 1;
      if node.path in resources {
        topicDB.Close(node, j);
        var ok := topicDB.DeleteTopic(node.path);
        if ok {
          resources := resources - {node.path};
        }
      }
    }

    /** hnd_delete_topic; the resource table is gone through in any order. */
    method Delete(uri: string, response: Pdu)
      requires Valid() && Enabled(View(), Deleted(uri)) && response.Valid()
      modifies `resources, topicDB, topicDB.spine, response, response.buf
      ensures Valid() && View() == AfterDelete(old(View()), uri)
      ensures |topicDB.topics| < |old(topicDB.topics)|
      ensures response.Valid()
      ensures response.View() == WithReply(old(response.View()), DeleteReply(|old(topicDB.topics)| - |topicDB.topics|))
    {
      hide Invariant, Has, Fallen, Drop, Falls, Contains, Without, Enabled, Linked, Hold, FreeBut, Clean, DeleteReply, AfterDelete;
      ghost var s := View();
      TargetKnown(s, Deleted(uri));
      DeleteKeeps(s, uri);
      AfterDeleteIs(s, uri);
      var counter := DeleteAll(uri, s);
      AnswerCount(response, counter);
    }

    /** The topic itself, and if it was there, all that fall with it. */
    method DeleteAll(uri: string, ghost s: State) returns (counter: nat)
      requires topicDB.Valid() && Invariant(s) && Has(s.topics, uri)
      requires topicDB.topics == s.topics && resources == s.resources
      modifies `resources, topicDB, topicDB.spine
      ensures topicDB.Valid() && topicDB.topics == Drop(s.topics, Fallen(s.topics, uri))
      ensures resources == s.resources - Fallen(s.topics, uri)
      ensures counter > 0 && counter + |topicDB.topics| == |s.topics|
    {
      hide Invariant, Has, Fallen, Drop, Falls, Contains, Without, Linked, Hold, FreeBut, Clean;
      counter := 0;
      FirstFall(s, uri);
      var ok := topicDB.DeleteTopic(uri);
      if ok {
        resources := resources - {uri};
        var below := DeleteBelow(uri, s);
        counter := 1 + below;
      }
    }

    /** The loop of hnd_delete_topic over the resources left. */
    method DeleteBelow(uri: string, ghost s: State) returns (counter: nat)
      requires Invariant(s) && topicDB.Valid()
      requires topicDB.topics == Drop(s.topics, {uri}) && resources == s.resources - {uri}
      requires FallenButFor(s, uri, {uri}, resources.Keys)
      modifies `resources, topicDB, topicDB.spine
      ensures topicDB.Valid() && topicDB.topics == Drop(s.topics, Fallen(s.topics, uri))
      ensures resources == s.resources - Fallen(s.topics, uri)
      ensures counter + |topicDB.topics| == |old(topicDB.topics)|
    {
      hide Invariant, Has, Fallen, Drop, Falls, Contains, Without, Linked, Hold, FreeBut, Clean, FallenButFor;
      counter := 0;
      var todo := resources.Keys;
      ghost var gone := {uri};
      while todo != {}
        invariant topicDB.Valid() && topicDB.topics == Drop(s.topics, gone) && resources == s.resources - gone
        invariant FallenButFor(s, uri, gone, todo)
        invariant counter + |topicDB.topics| == |old(topicDB.topics)|
        invariant forall i :: 0 <= i < |topicDB.spine| ==> topicDB.spine[i] in old(topicDB.spine)
        decreases todo
      {
        var r: string :| r in todo;
        assert todo == todo - {r} + {r};
        todo := todo - {r};
        OneFalls(s, uri, gone, todo, r);
        if Contains(r, uri + "/") {
          var ok := topicDB.DeleteTopic(r);
          if ok {
            resources := resources - {r};
            gone := gone + {r};
            assert resources == s.resources - gone;
            counter := counter + 1;
          }
        }
      }
      AllFell(s, uri, gone);
    }
  }

  /** The scan has cleared what expired among the first k topics. */
  ghost predicate Swept(ts: seq<Topic>, us: seq<Topic>, at: seq<int>, k: nat)
    requires |at| == |ts|
  {
    && |us| == |ts|
    && forall i :: 0 <= i < |ts| ==> us[i] == if i < k then Cleared(ts[i], at[i]) else ts[i]
  }

  lemma NoneSeen(ts: seq<Topic>, stale: int)
    ensures NextData(ts[..0], stale) == LONG_MAX
  {
  }

  lemma SeenOne(ts: seq<Topic>, us: seq<Topic>, at: seq<int>, k: nat, stale: int)
    requires |at| == |ts| && Swept(ts, us, at, k) && k < |ts|
    ensures us[k] == ts[k]
    ensures !Expired(ts[k].dataMa, at[k]) ==> Swept(ts, us, at, k + 1)
    ensures (var t, next := ts[k], NextData(ts[..k], stale);
             NextData(ts[..k + 1], stale)
             == if t.dataMa != 0 && t.dataMa != stale && t.dataMa < next then t.dataMa else next)
  {
    assert ts[..k + 1][..k] == ts[..k];
  }

  lemma SweptIndexOf(s: State, us: seq<Topic>, at: seq<int>, k: nat)
    requires |at| == |s.topics| && Invariant(s) && Swept(s.topics, us, at, k) && k < |s.topics|
    requires Expired(s.topics[k].dataMa, at[k])
    ensures Swept(s.topics, WithoutData(us, s.topics[k].path), at, k + 1)
  {
  }

  lemma AllSwept(ts: seq<Topic>, us: seq<Topic>, at: seq<int>)
    requires |at| == |ts| && Swept(ts, us, at, |ts|)
    ensures us == Sweep(ts, at) && ts[..|ts|] == ts
  {
  }

  lemma DropShifts(spine: seq<Node>, j: nat)
    requires j < |spine|
    ensures At(DropAt(spine, j), j) == At(spine, j + 1) && |DropAt(spine, j)| == |spine| - 1
  {
  }

  /** The scan has dealt with k topics and kept j of them. */
  ghost predicate Walked(ts: seq<Topic>, us: seq<Topic>, at: seq<int>, k: nat, j: nat)
    requires |at| == |ts|
  {
    && k <= |ts| && us == Kept(ts[..k], at[..k]) + ts[k..]
    && j == |Kept(ts[..k], at[..k])|
  }

  lemma WalkStarts(s: State, at: seq<int>)
    requires |at| == |s.topics|
    ensures Walked(s.topics, s.topics, at, 0, 0) && NextTopic(s.topics[..0], s.earliestTopic) == LONG_MAX
    ensures s.resources == s.resources - Overdue(s.topics[..0], at[..0])
  {
  }

  lemma WalkEnds(s: State, us: seq<Topic>, at: seq<int>, j: nat)
    requires |at| == |s.topics| && Walked(s.topics, us, at, |s.topics|, j)
    ensures us == Kept(s.topics, at) && s.topics[..|s.topics|] == s.topics && at[..|at|] == at
  {
    hide Kept;
    assert s.topics[..|s.topics|] == s.topics && at[..|at|] == at;
  }

  /** Nothing before the k-th topic shares its path. */
  lemma KeptBefore(ts: seq<Topic>, at: seq<int>, k: nat)
    requires |at| == |ts| && DistinctPaths(ts) && k < |ts|
    ensures forall t :: t in Kept(ts[..k], at[..k]) ==> t.path != ts[k].path
    ensures ts[k].path !in Overdue(ts[..k], at[..k])
  {
    KeptIsDrop(ts[..k], at[..k]);
    hide Kept, Drop;
    forall t | t in Kept(ts[..k], at[..k]) ensures t.path != ts[k].path {
      var i :| 0 <= i < k && ts[..k][i] == t;
    }
  }

  lemma KeptStep(ts: seq<Topic>, at: seq<int>, k: nat, stale: int)
    requires |at| == |ts| && k < |ts|
    ensures Kept(ts[..k + 1], at[..k + 1])
         == Kept(ts[..k], at[..k]) + if Expired(ts[k].topicMa, at[k]) then [] else [ts[k]]
    ensures Overdue(ts[..k + 1], at[..k + 1])
         == Overdue(ts[..k], at[..k]) + if Expired(ts[k].topicMa, at[k]) then {ts[k].path} else {}
    ensures (var t, next := ts[k], NextTopic(ts[..k], stale);
             NextTopic(ts[..k + 1], stale)
             == if t.topicMa != 0 && t.topicMa != stale && t.topicMa < next then t.topicMa else next)
  {
    hide Expired, Overdue;
    assert ts[..k + 1][..k] == ts[..k] && at[..k + 1][..k] == at[..k];
    OverdueExtend(ts[..k + 1], at[..k + 1]);
  }

  /** One step of the scan, whether the topic stays or goes. */
  lemma WalkOn(s: State, us: seq<Topic>, at: seq<int>, k: nat, j: nat)
    requires Invariant(s) && |at| == |s.topics| && k < |s.topics| && Walked(s.topics, us, at, k, j)
    ensures (var t := s.topics[k];
             var rs := s.resources - Overdue(s.topics[..k], at[..k]);
             && j < |us| && us[j] == t && t.path in rs
             && Has(us, t.path) && IndexOf(us, t.path) == j
             && (if Expired(t.topicMa, at[k]) then
                   && Walked(s.topics, Without(us, t.path), at, k + 1, j)
                   && s.resources - Overdue(s.topics[..k + 1], at[..k + 1]) == rs - {t.path}
                 else
                   && Walked(s.topics, us, at, k + 1, j + 1)
                   && s.resources - Overdue(s.topics[..k + 1], at[..k + 1]) == rs))
    ensures (var t, next := s.topics[k], NextTopic(s.topics[..k], s.earliestTopic);
             NextTopic(s.topics[..k + 1], s.earliestTopic)
             == if t.topicMa != 0 && t.topicMa != s.earliestTopic && t.topicMa < next then t.topicMa else next)
  {
    hide Kept, Overdue, Expired, NextTopic, Invariant, Has, IndexOf, Without, Walked;
    KeptStep(s.topics, at, k, s.earliestTopic);
    TopicsDistinct(s);
    WalkTopics(s.topics, us, at, k, j);
    WalkTable(s, at, k);
    var rs := s.resources - Overdue(s.topics[..k], at[..k]);
    assert rs - {} == rs;
    var gone := Overdue(s.topics[..k], at[..k]);
    var more := if Expired(s.topics[k].topicMa, at[k]) then {s.topics[k].path} else {};
    assert s.resources - (gone + more) == rs - more;
  }

  lemma WalkTopics(ts: seq<Topic>, us: seq<Topic>, at: seq<int>, k: nat, j: nat)
    requires DistinctPaths(ts) && |at| == |ts| && k < |ts| && Walked(ts, us, at, k, j)
    ensures j < |us| && us[j] == ts[k] && Has(us, us[j].path) && IndexOf(us, us[j].path) == j
    ensures Expired(us[j].topicMa, at[k]) ==> Walked(ts, Without(us, us[j].path), at, k + 1, j)
    ensures !Expired(us[j].topicMa, at[k]) ==> Walked(ts, us, at, k + 1, j + 1)
  {
    hide Kept, Overdue, Expired, NextTopic, Has, IndexOf, Without, DistinctPaths;
    var t, kept := ts[k], Kept(ts[..k], at[..k]);
    KeptStep(ts, at, k, 0);
    KeptBefore(ts, at, k);
    assert ts[k..] == [t] + ts[k + 1..];
    IndexBehind(kept, t, ts[k + 1..]);
    assert kept + [] == kept;
  }

  lemma WalkTable(s: State, at: seq<int>, k: nat)
    requires Invariant(s) && |at| == |s.topics| && k < |s.topics|
    ensures s.topics[k].path in s.resources && s.topics[k].path !in Overdue(s.topics[..k], at[..k])
  {
  }

  lemma IndexBehind(front: seq<Topic>, t: Topic, back: seq<Topic>)
    requires forall u :: u in front ==> u.path != t.path
    ensures (var us := front + ([t] + back);
             && Has(us, t.path) && IndexOf(us, t.path) == |front|
             && Without(us, t.path) == front + back)
    ensures front + ([t] + back) == (front + [t]) + back
  {
    var us := front + ([t] + back);
    assert forall i :: 0 <= i < |front| ==> us[i] == front[i] && front[i] in front;
    assert us[|front|] == t;
    assert DropAt(us, |front|) == front + back;
  }

  /** What has been deleted when the loop still has some resources to look at. */
  ghost predicate FallenButFor(s: State, uri: string, gone: set<string>, todo: set<string>) {
    && uri in gone && gone <= Fallen(s.topics, uri)
    && (forall p :: p in Fallen(s.topics, uri) ==> p in gone || p in todo)
  }

  lemma AfterDeleteIs(s: State, uri: string)
    requires Has(s.topics, uri)
    ensures AfterDelete(s, uri)
         == s.(topics := Drop(s.topics, Fallen(s.topics, uri)), resources := s.resources - Fallen(s.topics, uri))
  {
  }

  lemma FirstFall(s: State, uri: string)
    requires Invariant(s) && Has(s.topics, uri)
    ensures Without(s.topics, uri) == Drop(s.topics, {uri})
    ensures FallenButFor(s, uri, {uri}, s.resources.Keys - {uri})
    ensures |Without(s.topics, uri)| == |s.topics| - 1
  {
    DropNone(s.topics);
    WithoutDrop(s.topics, {}, uri);
    assert {} + {uri} == {uri};
    hide Falls, Has, Drop, IndexOf, Contains;
    HasPath(s.topics, uri);
    FallsSelf(uri);
    forall p | p in Fallen(s.topics, uri) ensures p in s.resources {
      HasPath(s.topics, p);
    }
  }

  lemma FallsSelf(uri: string)
    ensures Falls(uri, uri)
    ensures forall p :: Contains(p, uri + "/") ==> Falls(p, uri)
    ensures forall p :: Falls(p, uri) && p != uri ==> Contains(p, uri + "/")
  {
  }

  lemma OneFalls(s: State, uri: string, gone: set<string>, todo: set<string>, r: string)
    requires Invariant(s) && FallenButFor(s, uri, gone, todo + {r})
    ensures (var ts := Drop(s.topics, gone);
             && (Has(ts, r) && Contains(r, uri + "/") ==>
                   && Without(ts, r) == Drop(s.topics, gone + {r})
                   && |Without(ts, r)| == |ts| - 1
                   && FallenButFor(s, uri, gone + {r}, todo))
             && (!(Has(ts, r) && Contains(r, uri + "/")) ==> FallenButFor(s, uri, gone, todo))
             && (!Has(ts, r) ==> Without(ts, r) == ts))
  {
    hide Falls, Drop, IndexOf, Contains;
    WithoutDrop(s.topics, gone, r);
    FallsSelf(uri);
    HasPath(s.topics, r);
    DropKeeps(s.topics, gone);
  }

  lemma {:induction false} DropNone(ts: seq<Topic>)
    ensures Drop(ts, {}) == ts
  {
    if ts != [] {
      DropNone(ts[1..]);
    }
  }

  lemma WithoutCons(t: Topic, us: seq<Topic>, path: string)
    ensures Without([t] + us, path) == if t.path == path then us else [t] + Without(us, path)
    ensures Without([], path) == []
  {
  }

  /** Deleting one more. */
  lemma {:induction false} WithoutDrop(ts: seq<Topic>, gone: set<string>, path: string)
    requires DistinctPaths(ts)
    ensures Without(Drop(ts, gone), path) == Drop(ts, gone + {path})
  {
    hide Without, Drop;
    DropNothing(gone);
    DropNothing(gone + {path});
    if ts == [] {
      WithoutCons(Topic(path, None, 0, 0), [], path);
    } else {
      var t, rest := ts[0], ts[1..];
      assert ts == [t] + rest;
      DropCons(t, rest, gone);
      DropCons(t, rest, gone + {path});
      WithoutDrop(rest, gone, path);
      WithoutCons(t, Drop(rest, gone), path);
      assert [] + Drop(rest, gone) == Drop(rest, gone);
      assert [] + Drop(rest, gone + {path}) == Drop(rest, gone + {path});
      if t.path == path {
        DropOthers(rest, gone, {path});
      }
    }
  }

  lemma DropNothing(gone: set<string>)
    ensures Drop([], gone) == []
  {
  }

  lemma DropCons(t: Topic, rest: seq<Topic>, gone: set<string>)
    ensures Drop([t] + rest, gone) == (if t.path in gone then [] else [t]) + Drop(rest, gone)
  {
    assert ([t] + rest)[1..] == rest;
  }

  lemma AllFell(s: State, uri: string, gone: set<string>)
    requires FallenButFor(s, uri, gone, {})
    ensures gone == Fallen(s.topics, uri)
  {
  }
}
