/** What clients of the broker can rely on. */
module BrokerTheorems {
  import opened Bytes
  import opened LinkFormat
  import opened Messages
  import opened OptionIterator
  import opened Topics
  import opened VarInt
  import opened BrokerStates
  import opened BrokerRuns

  // ----- no topic resource is without its topic

  /** The 404 branches of hnd_get_topic and hnd_put_topic are never taken, and both
      find the ct attribute they read without a check. */
  lemma NeverNotFound(states: seq<State>, events: seq<Event>, n: nat, uri: string)
    requires IsRun(states, events) && n < |states|
    requires uri in states[n].resources && IsTopic(uri)
    ensures FormatOk(states[n].resources[uri])
    ensures forall req: Option<Request>, observed: bool, observe: uint32, at: int ::
      GetReply(states[n], uri, req, observed, observe, at).code != 404
    ensures forall req: Request :: PutCode(states[n], uri, req) != 404
  {
    hide Has, FormatOk, FirstValue, IsRun, Format, Invariant, Find, VarBytes;
    RunKeeps(states, events, n);
    TopicKnown(states[n], uri);
  }

  /** A POST is answered with 2.01 exactly when it makes a topic that was not there. */
  lemma CreatedMeansNew(s: State, parent: string, req: Request, at: int)
    requires Invariant(s) && Enabled(s, Posted(parent, req, at))
    ensures PostReply(s, parent, req).code == 201 <==> |AfterPost(s, parent, req, at).topics| > |s.topics|
    ensures PostReply(s, parent, req).code == 201 ==>
      (var r := Judge(s, parent, req).resource;
       && !Has(s.topics, r.uri)
       && AfterPost(s, parent, req, at).topics == s.topics + [Topic(r.uri, None, TopicExpiry(req, at), 0)]
       && AfterPost(s, parent, req, at).resources == s.resources[r.uri := r])
  {
    hide Described, Has, FindAttr;
    match Judge(s, parent, req)
    case Creates(r) =>
      DescribedBelow(parent, req);
      assert r.uri[..Min(|r.uri|, |r.uri|)] == r.uri;
      assert !Has(s.topics, r.uri);
    case Exists(uri) =>
      InfoKeepsLength(s.topics, uri, TopicExpiry(req, at));
    case _ =>
  }

  lemma InfoKeepsLength(ts: seq<Topic>, path: string, topicMa: int)
    ensures |WithInfo(ts, path, topicMa)| == |ts|
  {
  }

  // ----- expiry

  /** After the data monitor no data is left that had expired when it started, and the
      cached time still is not above any other; likewise when it skipped its scan. */
  lemma DataMonitorClears(s: State, readings: seq<int>, i: nat)
    requires Invariant(s) && Readings(s, readings) && i < |s.topics|
    ensures (var s' := AfterDataMonitor(s, readings);
             && |s'.topics| == |s.topics|
             && !Expired(s'.topics[i].dataMa, readings[0])
             && (!Expired(s.topics[i].dataMa, readings[|readings| - 1]) ==> s'.topics[i] == s.topics[i])
             && (Expired(s.topics[i].dataMa, readings[0]) ==>
                   s'.topics[i] == s.topics[i].(data := None, dataMa := 0)))
  {
  }

  /** After the topic monitor no topic is left that had expired when it started; its
      resource is gone too, and no topic goes that has not expired. */
  lemma TopicMonitorRemoves(s: State, readings: seq<int>, t: Topic)
    requires Invariant(s) && Readings(s, readings)
    ensures (var s' := AfterTopicMonitor(s, readings);
             && (t in s'.topics ==> t in s.topics && t.path in s'.resources && !Expired(t.topicMa, readings[0]))
             && (t in s.topics && !Expired(t.topicMa, readings[|readings| - 1]) ==> t in s'.topics)
             && (t in s.topics && Expired(t.topicMa, readings[0]) ==> t.path !in s'.resources))
  {
    hide Invariant, NextTopic, Kept, Overdue, Drop, Expired;
    TopicMonitorKeeps(s, readings);
    TopicHasResource(AfterTopicMonitor(s, readings), t);
    if s.topics == [] || s.earliestTopic >= readings[0] {
      NothingOverdue(s, readings[0], t);
    } else {
      TopicsDistinct(s);
      ScanRemoves(s.topics, readings, t);
    }
  }

  lemma TopicHasResource(s: State, t: Topic)
    requires Invariant(s)
    ensures t in s.topics ==> t.path in s.resources
  {
    hide Has, Sound, Bounded, Clean, Formats;
    if t in s.topics {
      PathIn(s.topics, t.path);
      HasPath(s.topics, t.path);
    }
  }

  lemma NothingOverdue(s: State, at: int, t: Topic)
    requires Invariant(s) && (s.topics == [] || s.earliestTopic >= at)
    ensures t in s.topics ==> !Expired(t.topicMa, at)
  {
    hide Agree, Bounded, Clean, Formats;
  }

  /** The scan takes out nothing but what has expired by its end, and all that had at
      its start. */
  lemma ScanRemoves(ts: seq<Topic>, readings: seq<int>, t: Topic)
    requires |readings| == |ts| + 1 && Forward(readings[0], readings) && DistinctPaths(ts)
    ensures (var at := readings[1..];
             && (t in Kept(ts, at) ==> t in ts && !Expired(t.topicMa, readings[0]))
             && (t in ts && !Expired(t.topicMa, readings[|readings| - 1]) ==> t in Kept(ts, at))
             && (t in ts && Expired(t.topicMa, readings[0]) ==> t.path in Overdue(ts, at)))
  {
    hide Kept, Overdue, Drop, Forward, DistinctPaths, Expired;
    var at := readings[1..];
    KeptIsDrop(ts, at);
    if t in ts {
      var i :| 0 <= i < |ts| && ts[i] == t;
      OverdueExactly(ts, at, i);
      ReadBetween(readings, i);
      if !Expired(t.topicMa, at[i]) {
        ExpiryLater(t.topicMa, readings[0], at[i]);
      } else if !Expired(t.topicMa, readings[|ts|]) {
        ExpiryLater(t.topicMa, at[i], readings[|ts|]);
      }
    }
  }

  lemma ReadBetween(readings: seq<int>, i: nat)
    requires i + 1 < |readings| && Forward(readings[0], readings)
    ensures readings[0] <= readings[1..][i] <= readings[|readings| - 1]
  {
  }

  lemma OverdueExactly(ts: seq<Topic>, at: seq<int>, i: nat)
    requires |at| == |ts| && DistinctPaths(ts) && i < |ts|
    ensures ts[i].path in Overdue(ts, at) <==> Expired(ts[i].topicMa, at[i])
  {
  }

  /** The rest of a turn of the main loop once a handler has left the state s: the two
      monitors. Nothing is left that had expired when the first of them started. */
  lemma TurnClears(s: State, data: seq<int>, topics: seq<int>, t: Topic)
    requires Invariant(s) && Readings(s, data) && Readings(AfterDataMonitor(s, data), topics)
    requires t in AfterTopicMonitor(AfterDataMonitor(s, data), topics).topics
    ensures !Expired(t.topicMa, data[0]) && !Expired(t.dataMa, data[0])
  {
    hide Invariant, AfterTopicMonitor, AfterDataMonitor, Has, Expired;
    var s' := AfterDataMonitor(s, data);
    DataMonitorKeeps(s, data);
    DataMonitorShape(s, data);
    TopicMonitorRemoves(s', topics, t);
    ExpiryLater(t.topicMa, data[0], topics[0]);
    var i :| 0 <= i < |s'.topics| && s'.topics[i] == t;
    DataMonitorClears(s, data, i);
  }

  lemma DataMonitorShape(s: State, readings: seq<int>)
    requires Readings(s, readings)
    ensures AfterDataMonitor(s, readings).now == readings[|readings| - 1] >= readings[0]
    ensures |AfterDataMonitor(s, readings).topics| == |s.topics|
  {
  }

  lemma ExpiryLater(expiry: int, at: int, later: int)
    requires at <= later && !Expired(expiry, later)
    ensures !Expired(expiry, at)
  {
  }

  /** Whether the data monitor ran before it or not, a GET is answered alike. */
  lemma EagerExpiryInvisible(s: State, readings: seq<int>, uri: string, req: Option<Request>,
                             observed: bool, observe: uint32, at: int)
    requires Invariant(s) && Readings(s, readings) && readings[|readings| - 1] <= at
    requires uri in s.resources && IsTopic(uri)
    ensures FormatOk(s.resources[uri]) && AfterDataMonitor(s, readings).resources == s.resources
    ensures GetReply(AfterDataMonitor(s, readings), uri, req, observed, observe, at)
         == GetReply(s, uri, req, observed, observe, at)
  {
    DataMonitorKeeps(s, readings);
    SweptAnswer(s, readings, uri, Format(s.resources[uri]), observed, observe, at);
    hide Has, AfterDataMonitor, FormatOk, Format, FirstValue, Answer;
  }

  lemma SweptAnswer(s: State, readings: seq<int>, uri: string, format: nat, observed: bool, observe: uint32, at: int)
    requires Invariant(s) && Readings(s, readings) && readings[|readings| - 1] <= at
    requires Has(s.topics, uri) && Has(AfterDataMonitor(s, readings).topics, uri)
    ensures AfterDataMonitor(s, readings).resources == s.resources
    ensures (var t, t' := Find(s.topics, uri).value, Find(AfterDataMonitor(s, readings).topics, uri).value;
             Answer(t', format, observed, observe, at) == Answer(t, format, observed, observe, at))
  {
    hide Answer, Find, Has, Invariant, AfterDataMonitor;
    var at' := SweptTopic(s, readings, uri);
    var t := Find(s.topics, uri).value;
    ClearedAnswer(t, at', format, observed, observe, at);
  }

  /** What the data monitor makes of one topic. */
  lemma SweptTopic(s: State, readings: seq<int>, uri: string) returns (at: int)
    requires Invariant(s) && Readings(s, readings)
    requires Has(s.topics, uri)
    ensures at <= readings[|readings| - 1]
    ensures AfterDataMonitor(s, readings).resources == s.resources
    ensures Find(s.topics, uri).Some? && Find(AfterDataMonitor(s, readings).topics, uri).Some?
    ensures (var t, t' := Find(s.topics, uri).value, Find(AfterDataMonitor(s, readings).topics, uri).value;
             t' == t || t' == Cleared(t, at))
  {
    hide NextData, Invariant, Sweep, VarBytes, FormatOk;
    DataMonitorDistinct(s, readings);
    var s', i := AfterDataMonitor(s, readings), IndexOf(s.topics, uri);
    at := readings[i + 1];
    if s'.topics != s.topics {
      assert readings[1..][i] == at;
      SweptIndex(s.topics, readings[1..], uri);
    }
  }

  lemma DataMonitorDistinct(s: State, readings: seq<int>)
    requires Invariant(s) && Readings(s, readings)
    ensures DistinctPaths(AfterDataMonitor(s, readings).topics)
  {
  }

  lemma ClearedAnswer(t: Topic, early: int, format: nat, observed: bool, observe: uint32, at: int)
    requires early <= at
    ensures Answer(Cleared(t, early), format, observed, observe, at) == Answer(t, format, observed, observe, at)
  {
  }

  lemma SweptIndex(ts: seq<Topic>, at: seq<int>, uri: string)
    requires |at| == |ts| && DistinctPaths(Sweep(ts, at)) && Has(ts, uri)
    ensures IndexOf(Sweep(ts, at), uri) == IndexOf(ts, uri)
  {
  }

  /** A 2.05 answer carries the stored data, which has not expired, and exactly the
      time it has left. */
  lemma ContentIsFresh(s: State, uri: string, req: Option<Request>, observed: bool, observe: uint32, at: int)
    requires Invariant(s) && uri in s.resources && IsTopic(uri) && s.now <= at
    requires GetReply(s, uri, req, observed, observe, at).code == 205
    ensures Has(s.topics, uri)
    ensures (var t := Find(s.topics, uri).value;
             var r := GetReply(s, uri, req, observed, observe, at);
             && t.data == Some(r.payload)
             && (t.dataMa == 0 || at <= t.dataMa)
             && FirstValue(r.opts, CONTENT_TYPE) == Some(Format(s.resources[uri]))
             && FirstValue(r.opts, MAX_AGE) == if t.dataMa == 0 then None else Some(t.dataMa - at))
  {
    hide Invariant, GetReply, Find, Has, FormatOk, Format, FirstValue, Answer, Expired;
    TopicKnown(s, uri);
    AnswerGiven(s, uri, req, observed, observe, at);
    var t, format := Find(s.topics, uri).value, Format(s.resources[uri]);
    AnswerData(t, format, observed, observe, at);
    AnswerValues(t, format, observed, observe, at);
  }

  lemma AnswerGiven(s: State, uri: string, req: Option<Request>, observed: bool, observe: uint32, at: int)
    requires uri in s.resources && FormatOk(s.resources[uri])
    requires GetReply(s, uri, req, observed, observe, at).code == 205
    ensures Has(s.topics, uri)
    ensures GetReply(s, uri, req, observed, observe, at)
         == Answer(Find(s.topics, uri).value, Format(s.resources[uri]), observed, observe, at)
  {
  }

  lemma AnswerData(t: Topic, format: nat, observed: bool, observe: uint32, at: int)
    ensures (var r := Answer(t, format, observed, observe, at);
             r.code == 205 ==> t.data == Some(r.payload) && !Expired(t.dataMa, at) && (t.dataMa == 0 || at <= t.dataMa))
  {
  }

  function MaxAgeLeft(t: Topic, at: int): seq<Opt>
    requires t.dataMa == 0 || at <= t.dataMa
  {
    if t.dataMa == 0 then [] else [Opt(MAX_AGE, VarBytes(t.dataMa - at))] + []
  }

  lemma AnswerShape(t: Topic, format: nat, observed: bool, observe: uint32, at: int)
    requires format <= 65535 && t.data.Some? && !Expired(t.dataMa, at) && t.dataMa < at + TWO32
    ensures (var rest := [Opt(CONTENT_TYPE, VarBytes(format))] + MaxAgeLeft(t, at);
             Answer(t, format, observed, observe, at)
             == Reply(205, if observed then [Opt(OBSERVE, VarBytes(observe))] + rest else rest, t.data.value))
  {
    hide VarBytes;
  }

  lemma AnswerValues(t: Topic, format: nat, observed: bool, observe: uint32, at: int)
    requires format <= 65535 && t.data.Some? && !Expired(t.dataMa, at) && t.dataMa < at + TWO32
    ensures (var r := Answer(t, format, observed, observe, at);
             && FirstValue(r.opts, CONTENT_TYPE) == Some(format)
             && FirstValue(r.opts, MAX_AGE) == if t.dataMa == 0 then None else Some(t.dataMa - at))
  {
    AnswerShape(t, format, observed, observe, at);
    LeftValue(t, at);
    hide Answer, MaxAgeLeft, VarBytes, Value, FirstValue, FirstOf, Expired;
    var ct, rest := Opt(CONTENT_TYPE, VarBytes(format)), MaxAgeLeft(t, at);
    FirstValueHere(CONTENT_TYPE, format, rest);
    FirstValueBehind(ct, rest, MAX_AGE);
    if observed {
      var o := Opt(OBSERVE, VarBytes(observe));
      FirstValueBehind(o, [ct] + rest, CONTENT_TYPE);
      FirstValueBehind(o, [ct] + rest, MAX_AGE);
    }
  }

  lemma LeftValue(t: Topic, at: int)
    requires t.dataMa == 0 || at <= t.dataMa < at + TWO32
    ensures FirstValue(MaxAgeLeft(t, at), MAX_AGE) == if t.dataMa == 0 then None else Some(t.dataMa - at)
  {
    hide VarBytes, Value, FirstValue;
    NoValue(MAX_AGE);
    if t.dataMa != 0 {
      FirstValueHere(MAX_AGE, t.dataMa - at, []);
    }
  }

  lemma NoValue(number: uint16)
    ensures FirstValue([], number) == None
  {
  }

  lemma FirstValueHere(number: uint16, v: uint32, rest: seq<Opt>)
    ensures FirstValue([Opt(number, VarBytes(v))] + rest, number) == Some(v)
  {
    var o := Opt(number, VarBytes(v));
    assert ([o] + rest)[0] == o;
    assert FirstOf([o] + rest, number) == Some(o);
    ValueOfVarBytes(v);
    SmallMod(v);
    hide VarBytes, Value, FirstOf;
  }

  lemma SmallMod(v: uint32)
    ensures v % TWO32 == v
  {
  }

  lemma FirstValueBehind(o: Opt, rest: seq<Opt>, number: uint16)
    requires o.number != number
    ensures FirstValue([o] + rest, number) == FirstValue(rest, number)
  {
  }

  // ----- deleting a topic and those below it

  /** After DELETE of u the topics left are exactly those other than u whose path does
      not contain u/ anywhere, with their entries unchanged, and no resource is left
      for those gone. */
  lemma DeleteRemoves(s: State, u: string, t: Topic)
    requires Invariant(s) && Has(s.topics, u)
    ensures (var s' := AfterDelete(s, u);
             && (t in s'.topics <==> t in s.topics && t.path != u && !Contains(t.path, u + "/"))
             && (t in s.topics && (u + "/") <= t.path ==> t !in s'.topics && t.path !in s'.resources))
  {
    hide Drop, Has;
    PathIn(s.topics, t.path);
    if (u + "/") <= t.path {
      assert StandsAt(t.path, u + "/", 0);
    }
  }

  /** u and the topics below it */
  predicate Below(p: string, u: string) {
    p == u || (u + "/") <= p
  }

  /** The deleted topics are exactly the subtree just when every path that contains u/
      starts with it. */
  lemma DeletesSubtreeExactly(s: State, u: string)
    requires Invariant(s) && Has(s.topics, u)
    ensures (forall t :: t in AfterDelete(s, u).topics <==> t in s.topics && !Below(t.path, u))
       <==> (forall t, i :: t in s.topics && StandsAt(t.path, u + "/", i) && i > 0 ==> (u + "/") <= t.path)
  {
    hide Invariant, Has, AfterDelete;
    if forall t :: t in AfterDelete(s, u).topics <==> t in s.topics && !Below(t.path, u) {
      forall t, i | t in s.topics && StandsAt(t.path, u + "/", i) && i > 0 ensures (u + "/") <= t.path {
        DeleteRemoves(s, u, t);
        assert Contains(t.path, u + "/");
      }
    }
    if forall t, i :: t in s.topics && StandsAt(t.path, u + "/", i) && i > 0 ==> (u + "/") <= t.path {
      forall t ensures t in AfterDelete(s, u).topics <==> t in s.topics && !Below(t.path, u) {
        DeleteRemoves(s, u, t);
        if t in s.topics && Contains(t.path, u + "/") {
          var i :| StandsAt(t.path, u + "/", i);
        }
      }
    }
  }

  /** A caller can rule the other case out by keeping "ps/" out of what comes after
      the first segment. */
  lemma SubtreeWhenPrefixIsUnique(s: State, u: string)
    requires Invariant(s) && Has(s.topics, u)
    requires forall t, i :: t in s.topics && StandsAt(t.path, "ps/", i) ==> i == 0
    ensures forall t :: t in AfterDelete(s, u).topics <==> t in s.topics && !Below(t.path, u)
  {
    assert IsTopic(u);
    hide Invariant, Has, AfterDelete;
    forall t, i | t in s.topics && StandsAt(t.path, u + "/", i) ensures i == 0 {
      assert t.path[i..i + 3] == t.path[i..i + |u + "/"|][..3] == "ps/";
      assert StandsAt(t.path, "ps/", i);
    }
    DeletesSubtreeExactly(s, u);
  }

  // ----- a run in which a topic outside the subtree goes all the same

  /** A POST of the path with content format 0. */
  function Asking(path: string): Request {
    Request([Opt(CONTENT_TYPE, [LINK_FORMAT])], Some(Ascii("<" + path + ">;ct=0")))
  }

  lemma AsciiText(s: string)
    requires forall i :: 0 <= i < |s| ==> 0 < s[i] as int < 0x100
    ensures Text(CString(Ascii(s))) == s
  {
  }

  lemma DescribesPath(path: string)
    requires path != [] && PathWord(path) && path[0] != '/' && path[|path| - 1] != '/'
    ensures Described("ps", Asking(path)) == Some(Resource("ps/" + path, [Attr("ct", "0")]))
  {
    hide LinkOf, CString, Text, Ascii, AddAttrs, PathWord, FirstValue;
    var it := Item("ct", "0", false, false);
    AskedLink(path, it);
    AsciiText("<" + path + ">;ct=0");
    OneAttr(it);
    assert "ps" + "/" + path == "ps/" + path;
  }

  lemma AskedLink(path: string, it: Item)
    requires path != [] && PathWord(path) && path[0] != '/' && path[|path| - 1] != '/'
    requires it == Item("ct", "0", false, false)
    ensures LinkOf("<" + path + ">;ct=0") == Some(Link(path, [it]))
    ensures (var s := "<" + path + ">;ct=0"; forall i :: 0 <= i < |s| ==> 0 < s[i] as int < 0x100)
  {
    hide LinkOf;
    OneItemPrints(it);
    assert "<" + path + ">" + ";ct=0" == "<" + path + ">;ct=0";
    ParsePrint(Link(path, [it]));
  }

  lemma OneItemPrints(it: Item)
    requires it == Item("ct", "0", false, false)
    ensures PrintItems([it]) == ";ct=0" && WellFormedItems([it])
  {
    assert [it][1..] == [] && PrintItem(it) == "ct=0";
  }

  lemma OneAttr(it: Item)
    ensures AddAttrs([], [it]) == [AttrOf(it)]
  {
    assert [it][1..] == [] && [AttrOf(it)] + [] == [AttrOf(it)];
  }

  lemma PostMakes(s: State, path: string)
    requires Invariant(s) && "ps" in s.resources && ("ps/" + path) !in s.resources
    requires path != [] && PathWord(path) && path[0] != '/' && path[|path| - 1] != '/'
    ensures Enabled(s, Posted("ps", Asking(path), s.now))
    ensures (var t := AfterPost(s, "ps", Asking(path), s.now);
             && t.topics == s.topics + [Topic("ps/" + path, None, 0, 0)]
             && t.now == s.now && "ps" in t.resources && t.resources.Keys == s.resources.Keys + {"ps/" + path}
             && t.resources["ps/" + path] == Resource("ps/" + path, [Attr("ct", "0")]))
  {
    hide Invariant, Described, FormatOk, FirstValue, PathWord, Asking, AfterPost, FindAttr;
    DescribesPath(path);
    FormatZero("ps/" + path);
    AskingValues(path);
    CreatedMeansNew(s, "ps", Asking(path), s.now);
    PostedAt(s, "ps", Asking(path), s.now);
  }

  lemma PostedAt(s: State, parent: string, req: Request, at: int)
    ensures AfterPost(s, parent, req, at).now == at
  {
  }

  lemma FormatZero(uri: string)
    ensures FormatOk(Resource(uri, [Attr("ct", "0")])) && FindAttr([Attr("ct", "0")], "ct").Some?
    ensures Format(Resource(uri, [Attr("ct", "0")])) == 0
  {
    assert Decimal("0") == 0;
  }

  lemma AskingValues(path: string)
    ensures FirstValue(Asking(path).opts, CONTENT_TYPE) == Some(LINK_FORMAT)
    ensures FirstValue(Asking(path).opts, MAX_AGE) == None
  {
    assert Value([LINK_FORMAT]) == LINK_FORMAT;
  }

  /** From the start: two topics are made, ps/a is deleted, and ps/ops/a/b, which does
      not lie below it, is gone as well. */
  lemma SubstringGoesToo() returns (states: seq<State>, events: seq<Event>)
    ensures IsRun(states, events) && |events| == 3 && events[2] == Deleted("ps/a")
    ensures Has(states[2].topics, "ps/a") && Has(states[2].topics, "ps/ops/a/b")
    ensures !Below("ps/ops/a/b", "ps/a") && !Has(states[3].topics, "ps/ops/a/b") && states[3].topics == []
  {
    hide Invariant, AfterPost, AfterDelete, Asking, Has, Falls, Below;
    var s0 := Initial;
    InitialHolds();
    assert "ps/" + "a" == "ps/a" && "ps/" + "ops/a/b" == "ps/ops/a/b";
    assert s0.resources.Keys == {"ps"};
    PostMakes(s0, "a");
    var e0 := Posted("ps", Asking("a"), 0);
    PostKeeps(s0, "ps", Asking("a"), 0);
    var s1 := AfterPost(s0, "ps", Asking("a"), 0);
    PostMakes(s1, "ops/a/b");
    var e1 := Posted("ps", Asking("ops/a/b"), s1.now);
    PostKeeps(s1, "ps", Asking("ops/a/b"), s1.now);
    var s2 := AfterPost(s1, "ps", Asking("ops/a/b"), s1.now);
    TwoTopics(s2);
    var s3 := AfterDelete(s2, "ps/a");
    states, events := [s0, s1, s2, s3], [e0, e1, Deleted("ps/a")];
  }

  lemma TwoTopics(s: State)
    requires Invariant(s) && s.topics == [Topic("ps/a", None, 0, 0), Topic("ps/ops/a/b", None, 0, 0)]
    ensures Enabled(s, Deleted("ps/a")) && AfterDelete(s, "ps/a").topics == []
    ensures Has(s.topics, "ps/a") && Has(s.topics, "ps/ops/a/b") && !Has([], "ps/ops/a/b")
    ensures !Below("ps/ops/a/b", "ps/a")
  {
    hide Invariant, AfterDelete, Contains, StandsAt;
    HasBoth(s.topics);
    Inside();
    var left := AfterDelete(s, "ps/a").topics;
    forall t ensures t !in left {
      DeleteRemoves(s, "ps/a", t);
    }
    SomeIn(left);
    DeletedEnabled(s);
  }

  lemma SomeIn(ts: seq<Topic>)
    ensures ts != [] ==> exists t :: t in ts
  {
    if ts != [] {
      assert ts[0] in ts;
    }
  }

  lemma HasBoth(ts: seq<Topic>)
    requires ts == [Topic("ps/a", None, 0, 0), Topic("ps/ops/a/b", None, 0, 0)]
    ensures Has(ts, "ps/a") && Has(ts, "ps/ops/a/b") && !Has([], "ps/ops/a/b")
  {
    HasPath(ts, "ps/a");
    HasPath(ts, "ps/ops/a/b");
    assert PathsOf(ts)[0] == "ps/a" && PathsOf(ts)[1] == "ps/ops/a/b";
  }

  lemma Inside()
    ensures Contains("ps/ops/a/b", "ps/a" + "/") && !Below("ps/ops/a/b", "ps/a")
  {
    assert "ps/a" + "/" == "ps/a/";
    assert "ps/ops/a/b"[4..9] == "ps/a/";
    assert StandsAt("ps/ops/a/b", "ps/a/", 4);
    assert "ps/ops/a/b"[3] != "ps/a/"[3];
  }

  lemma DeletedEnabled(s: State)
    requires Invariant(s) && Has(s.topics, "ps/a")
    ensures Enabled(s, Deleted("ps/a"))
  {
    hide Has;
  }
}
