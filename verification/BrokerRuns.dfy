/** What holds of the broker in every reachable state. */
module BrokerRuns {
  import opened Bytes
  import opened LinkFormat
  import opened Topics
  import opened BrokerStates

  datatype Event =
    | Posted(parent: string, req: Request, at: int)
    | Got(uri: string, at: int)
    | Put(uri: string, req: Request, at: int)
    | Deleted(uri: string)
    | Arrived(name: string, payload: seq<byte>)
    | DataChecked(readings: seq<int>)
    | TopicsChecked(readings: seq<int>)
    | Elsewhere(resources: map<string, Resource>)

  /** Requests reach the handler of a resource that is there; the clock does not go
      back; MQTT delivers to the names subscribed to, which are topics. The last kind
      of event is a change of resources that are no topics, as the resource directory
      makes. */
  ghost predicate Enabled(s: State, e: Event) {
    match e
    case Posted(parent, _, at) => parent in s.resources && (parent == "ps" || IsTopic(parent)) && s.now <= at
    case Got(uri, at) => uri in s.resources && IsTopic(uri) && s.now <= at
    case Put(uri, _, at) => uri in s.resources && IsTopic(uri) && s.now <= at
    case Deleted(uri) => uri in s.resources && IsTopic(uri)
    case Arrived(name, _) => IsTopic(name)
    case DataChecked(readings) => Readings(s, readings)
    case TopicsChecked(readings) => Readings(s, readings)
    case Elsewhere(rs) => SameTopics(s.resources, rs)
  }

  ghost predicate SameTopics(rs: map<string, Resource>, rs': map<string, Resource>) {
    forall u :: IsTopic(u) ==> (u in rs <==> u in rs') && (u in rs ==> rs'[u] == rs[u])
  }

  /** A topic without a usable ct attribute would have the handler of PUT read through
      a null pointer; the invariant says there is none. */
  ghost function Next(s: State, e: Event): State
    requires Enabled(s, e)
  {
    match e
    case Posted(parent, req, at) => AfterPost(s, parent, req, at)
    case Got(_, at) => s.(now := at)
    case Put(uri, req, at) => if FormatOk(s.resources[uri]) then AfterPut(s, uri, req, at) else s
    case Deleted(uri) => AfterDelete(s, uri)
    case Arrived(name, payload) => AfterArrival(s, name, payload)
    case DataChecked(readings) => AfterDataMonitor(s, readings)
    case TopicsChecked(readings) => AfterTopicMonitor(s, readings)
    case Elsewhere(rs) => s.(resources := rs)
  }

  // ----- the invariant

  /** The topic list and the resource table hold the same topics, each once. */
  ghost predicate Agree(ts: seq<Topic>, rs: map<string, Resource>) {
    && DistinctPaths(ts)
    && (forall u :: Has(ts, u) <==> IsTopic(u) && u in rs)
  }

  /** The cached times are not above any expiry time. */
  predicate Sound(ts: seq<Topic>, earliestTopic: int, earliestData: int) {
    forall i :: 0 <= i < |ts| ==>
      && (ts[i].topicMa != 0 ==> earliestTopic <= ts[i].topicMa)
      && (ts[i].dataMa != 0 ==> earliestData <= ts[i].dataMa)
  }

  /** No data lives longer than a Max-Age option can say. */
  predicate Bounded(ts: seq<Topic>, now: int) {
    forall i :: 0 <= i < |ts| && ts[i].dataMa != 0 ==> ts[i].dataMa < now + TWO32
  }

  ghost predicate Formats(rs: map<string, Resource>) {
    forall u :: u in rs && IsTopic(u) ==> rs[u].uri == u && FormatOk(rs[u])
  }

  ghost predicate Invariant(s: State) {
    && Agree(s.topics, s.resources)
    && Sound(s.topics, s.earliestTopic, s.earliestData)
    && Bounded(s.topics, s.now) && Clean(s.topics) && Formats(s.resources)
    && s.now >= 0
  }

  /** What the invariant says of one topic resource. */
  lemma TopicKnown(s: State, uri: string)
    requires Invariant(s) && uri in s.resources && IsTopic(uri)
    ensures FormatOk(s.resources[uri]) && Has(s.topics, uri) && s.now >= 0
    ensures Find(s.topics, uri).Some? && Find(s.topics, uri).value.dataMa < s.now + TWO32
  {
  }

  lemma TargetKnown(s: State, e: Event)
    requires Invariant(s) && Enabled(s, e)
    ensures e.Got? || e.Put? ==> e.uri in s.resources && FormatOk(s.resources[e.uri]) && Has(s.topics, e.uri)
    ensures e.Deleted? ==> e.uri in s.resources && Has(s.topics, e.uri)
    ensures e.Arrived? && e.name in s.resources ==> Has(s.topics, e.name)
  {
  }

  lemma TopicsDistinct(s: State)
    requires Invariant(s)
    ensures DistinctPaths(s.topics)
  {
  }

  lemma FormatKnown(s: State, e: Event)
    requires Invariant(s) && Enabled(s, e)
    ensures e.Got? ==> e.uri in s.resources && FormatOk(s.resources[e.uri])
  {
  }

  // ----- each part of the state on its own

  /** Writing one entry. */
  lemma ReplaceKeeps(ts: seq<Topic>, i: nat, t: Topic, earliestTopic: int, earliestData: int, now: int)
    requires i < |ts| && t.path == ts[i].path && (t.data.Some? ==> 0 !in t.data.value)
    requires Sound(ts, earliestTopic, earliestData) && Bounded(ts, now) && Clean(ts) && DistinctPaths(ts)
    requires t.topicMa != 0 ==> earliestTopic <= t.topicMa
    requires t.dataMa != 0 ==> earliestData <= t.dataMa < now + TWO32
    ensures (var us := ts[i := t];
             && Sound(us, earliestTopic, earliestData) && Bounded(us, now) && Clean(us) && DistinctPaths(us)
             && forall u :: Has(us, u) <==> Has(ts, u))
  {
    hide Has;
    ReplaceRefines(ts, i, t);
    forall u ensures Has(ts[i := t], u) <==> Has(ts, u) {
      HasPath(ts, u);
      HasPath(ts[i := t], u);
    }
  }

  /** Lowering the cached times and letting time pass. */
  lemma Weaken(ts: seq<Topic>, et: int, ed: int, now: int, et': int, ed': int, now': int)
    requires Sound(ts, et, ed) && Bounded(ts, now) && et' <= et && ed' <= ed && now <= now'
    ensures Sound(ts, et', ed') && Bounded(ts, now')
  {
  }

  lemma DropKeeps(ts: seq<Topic>, gone: set<string>)
    requires DistinctPaths(ts)
    ensures DistinctPaths(Drop(ts, gone)) && |Drop(ts, gone)| <= |ts|
    ensures forall u :: Has(Drop(ts, gone), u) <==> Has(ts, u) && u !in gone
  {
    DropDistinct(ts, gone);
    var us := Drop(ts, gone);
    hide Drop, Has;
    forall u ensures Has(us, u) <==> Has(ts, u) && u !in gone {
      HasPath(ts, u);
      HasPath(us, u);
      PathIn(ts, u);
      PathIn(us, u);
    }
  }

  lemma PathIn(ts: seq<Topic>, u: string)
    ensures u in PathsOf(ts) <==> exists t :: t in ts && t.path == u
  {
  }

  lemma {:induction false} DropDistinct(ts: seq<Topic>, gone: set<string>)
    requires DistinctPaths(ts)
    ensures DistinctPaths(Drop(ts, gone)) && |Drop(ts, gone)| <= |ts|
  {
    if ts != [] {
      var rest := ts[1..];
      DistinctRest(ts);
      DropDistinct(rest, gone);
      var us := Drop(rest, gone);
      hide DistinctPaths;
      forall i | 0 <= i < |us| ensures us[i].path != ts[0].path {
        assert us[i] in us;
      }
      PrefixDistinct(ts[0], us);
      assert [] + us == us;
    }
  }

  lemma DistinctRest(ts: seq<Topic>)
    requires DistinctPaths(ts) && ts != []
    ensures DistinctPaths(ts[1..]) && forall t :: t in ts[1..] ==> t.path != ts[0].path
  {
  }

  lemma PrefixDistinct(t: Topic, us: seq<Topic>)
    requires DistinctPaths(us) && forall i :: 0 <= i < |us| ==> us[i].path != t.path
    ensures DistinctPaths([t] + us)
  {
  }

  // ----- one event keeps the invariant

  lemma PostKeeps(s: State, parent: string, req: Request, at: int)
    requires Invariant(s) && Enabled(s, Posted(parent, req, at))
    ensures Invariant(AfterPost(s, parent, req, at))
  {
    hide Described, Has, FindAttr;
    var ma := TopicExpiry(req, at);
    var et := Earlier(ma, s.earliestTopic);
    Weaken(s.topics, s.earliestTopic, s.earliestData, s.now, et, s.earliestData, at);
    match Judge(s, parent, req)
    case Exists(uri) =>
      InfoKeeps(s.topics, uri, ma, et, s.earliestData, at);
    case Creates(r) =>
      DescribedBelow(parent, req);
      AppendKeeps(s.topics, s.resources, r, ma, et, s.earliestData, at);
    case _ =>
  }

  /** A posted resource lies below the one it was posted to. */
  lemma DescribedBelow(parent: string, req: Request)
    requires Described(parent, req).Some? && (parent == "ps" || IsTopic(parent))
    ensures IsTopic(Described(parent, req).value.uri)
  {
  }

  lemma InfoKeeps(ts: seq<Topic>, uri: string, ma: int, et: int, ed: int, now: int)
    requires Sound(ts, et, ed) && Bounded(ts, now) && Clean(ts) && DistinctPaths(ts)
    requires ma != 0 ==> et <= ma
    ensures (var us := WithInfo(ts, uri, ma);
             && Sound(us, et, ed) && Bounded(us, now) && Clean(us) && DistinctPaths(us)
             && forall u :: Has(us, u) <==> Has(ts, u))
  {
    if Has(ts, uri) {
      var i := IndexOf(ts, uri);
      var t := ts[i];
      ReplaceKeeps(ts, i, Topic(uri, Stored(t.data, if t.data.None? then 0 else |t.data.value|), ma, t.dataMa), et, ed, now);
    }
  }

  lemma AppendKeeps(ts: seq<Topic>, rs: map<string, Resource>, r: Resource, ma: int, et: int, ed: int, now: int)
    requires Agree(ts, rs) && Sound(ts, et, ed) && Bounded(ts, now) && Clean(ts) && Formats(rs)
    requires (ma != 0 ==> et <= ma) && IsTopic(r.uri) && r.uri !in rs && FormatOk(r)
    ensures (var us := Upsert(ts, r.uri, |r.uri|, ma);
             && Sound(us, et, ed) && Bounded(us, now) && Clean(us)
             && Agree(us, rs[r.uri := r]) && Formats(rs[r.uri := r]))
  {
    hide Has, Upsert, FormatOk;
    var t := Topic(r.uri, None, ma, 0);
    UpsertNew(ts, r.uri, ma);
    HasAppended(ts, t);
    NewPath(ts, r.uri);
  }

  lemma UpsertNew(ts: seq<Topic>, uri: string, ma: int)
    requires !Has(ts, uri) && uri != []
    ensures Upsert(ts, uri, |uri|, ma) == ts + [Topic(uri, None, ma, 0)]
  {
    assert uri[..Min(|uri|, |uri|)] == uri;
  }

  lemma NewPath(ts: seq<Topic>, path: string)
    requires !Has(ts, path)
    ensures forall i :: 0 <= i < |ts| ==> ts[i].path != path
  {
  }

  lemma HasAppended(ts: seq<Topic>, t: Topic)
    ensures forall u :: Has(ts + [t], u) <==> Has(ts, u) || u == t.path
  {
    hide Has;
    forall u ensures Has(ts + [t], u) <==> Has(ts, u) || u == t.path {
      HasPath(ts + [t], u);
      HasPath(ts, u);
      assert PathsOf(ts + [t]) == PathsOf(ts) + [t.path];
    }
  }

  lemma NewDataKeeps(ts: seq<Topic>, uri: string, ma: int, payload: Option<seq<byte>>, size: nat,
                     et: int, ed: int, now: int)
    requires Sound(ts, et, ed) && Bounded(ts, now) && Clean(ts) && DistinctPaths(ts)
    requires ma != 0 ==> ed <= ma < now + TWO32
    ensures (var us := WithNewData(ts, uri, ma, payload, size);
             && Sound(us, et, ed) && Bounded(us, now) && Clean(us) && DistinctPaths(us)
             && forall u :: Has(us, u) <==> Has(ts, u))
  {
    if Has(ts, uri) {
      var i := IndexOf(ts, uri);
      ReplaceKeeps(ts, i, Topic(uri, Stored(payload, size), ts[i].topicMa, ma), et, ed, now);
    }
  }

  lemma PutKeeps(s: State, uri: string, req: Request, at: int)
    requires Invariant(s) && Enabled(s, Put(uri, req, at))
    ensures Invariant(AfterPut(s, uri, req, at))
  {
    hide Has, FormatOk, Format, FirstValue, WithNewData;
    var ma := DataExpiry(req, at);
    var ed := Earlier(ma, s.earliestData);
    Weaken(s.topics, s.earliestTopic, s.earliestData, s.now, s.earliestTopic, ed, at);
    NewDataKeeps(s.topics, uri, ma, req.payload, Size(req.payload), s.earliestTopic, ed, at);
  }

  lemma ArrivalKeeps(s: State, name: string, payload: seq<byte>)
    requires Invariant(s)
    ensures Invariant(AfterArrival(s, name, payload))
  {
    hide Has, WithNewData;
    NewDataKeeps(s.topics, name, 0, Some(payload), |payload|, s.earliestTopic, s.earliestData, s.now);
  }

  /** Every topic left over is one from before. */
  lemma FromBefore(ts: seq<Topic>, gone: set<string>, i: nat) returns (j: nat)
    requires i < |Drop(ts, gone)|
    ensures j < |ts| && ts[j] == Drop(ts, gone)[i] && ts[j].path !in gone
  {
    var t := Drop(ts, gone)[i];
    assert t in Drop(ts, gone);
    j :| 0 <= j < |ts| && ts[j] == t;
  }

  lemma DropInvariant(ts: seq<Topic>, rs: map<string, Resource>, gone: set<string>, et: int, ed: int, now: int)
    requires Agree(ts, rs) && Sound(ts, et, ed) && Bounded(ts, now) && Clean(ts) && Formats(rs)
    requires forall u :: u in gone ==> Has(ts, u)
    ensures (var us := Drop(ts, gone);
             && Sound(us, et, ed) && Bounded(us, now) && Clean(us)
             && Agree(us, rs - gone) && Formats(rs - gone))
  {
    hide Drop, Has, FormatOk;
    DropKeeps(ts, gone);
    DropElements(ts, gone, et, ed, now);
  }

  lemma DropElements(ts: seq<Topic>, gone: set<string>, et: int, ed: int, now: int)
    requires Sound(ts, et, ed) && Bounded(ts, now) && Clean(ts)
    ensures Sound(Drop(ts, gone), et, ed) && Bounded(Drop(ts, gone), now) && Clean(Drop(ts, gone))
  {
    hide Drop;
    var us := Drop(ts, gone);
    forall i | 0 <= i < |us| ensures exists j :: 0 <= j < |ts| && ts[j] == us[i] {
      var j := FromBefore(ts, gone, i);
    }
  }

  lemma DeleteKeeps(s: State, uri: string)
    requires Invariant(s)
    ensures Invariant(AfterDelete(s, uri))
  {
    hide Has, Drop, Falls;
    forall p | p in Fallen(s.topics, uri) ensures Has(s.topics, p) {
      HasPath(s.topics, p);
    }
    DropInvariant(s.topics, s.resources, Fallen(s.topics, uri), s.earliestTopic, s.earliestData, s.now);
  }

  lemma {:induction false} NextDataBelow(ts: seq<Topic>, stale: int, i: nat)
    requires i < |ts| && ts[i].dataMa != 0 && ts[i].dataMa != stale
    ensures NextData(ts, stale) <= ts[i].dataMa
  {
    if i < |ts| - 1 {
      NextDataBelow(ts[..|ts| - 1], stale, i);
    }
  }

  lemma {:induction false} NextTopicBelow(ts: seq<Topic>, stale: int, i: nat)
    requires i < |ts| && ts[i].topicMa != 0 && ts[i].topicMa != stale
    ensures NextTopic(ts, stale) <= ts[i].topicMa
  {
    if i < |ts| - 1 {
      NextTopicBelow(ts[..|ts| - 1], stale, i);
    }
  }

  /** The new value may leave out every time equal to the old one: whatever carried
      it has expired and goes in the same pass. */
  lemma SweepKeeps(ts: seq<Topic>, at: seq<int>, et: int, ed: int, now: int)
    requires |at| == |ts| && Sound(ts, et, ed) && Bounded(ts, now) && Clean(ts) && DistinctPaths(ts)
    requires forall i :: 0 <= i < |at| ==> ed < at[i]
    ensures (var us := Sweep(ts, at);
             && Sound(us, et, NextData(ts, ed)) && Bounded(us, now) && Clean(us) && DistinctPaths(us)
             && forall u :: Has(us, u) <==> Has(ts, u))
  {
    var us := Sweep(ts, at);
    forall i | 0 <= i < |us| && us[i].dataMa != 0 ensures NextData(ts, ed) <= us[i].dataMa {
      NextDataBelow(ts, ed, i);
    }
    assert PathsOf(us) == PathsOf(ts);
    hide NextData, Has, PathsOf;
    forall u ensures Has(us, u) <==> Has(ts, u) {
      HasPath(us, u);
      HasPath(ts, u);
    }
  }

  lemma DataMonitorKeeps(s: State, readings: seq<int>)
    requires Invariant(s) && Readings(s, readings)
    ensures Invariant(AfterDataMonitor(s, readings))
  {
    hide Has, Sweep, NextData;
    var late := readings[|readings| - 1];
    Weaken(s.topics, s.earliestTopic, s.earliestData, s.now, s.earliestTopic, s.earliestData, late);
    if s.topics != [] && s.earliestData < readings[0] {
      SweepKeeps(s.topics, readings[1..], s.earliestTopic, s.earliestData, late);
    }
  }

  lemma DropFirst(t: Topic, rest: seq<Topic>, gone: set<string>)
    ensures Drop([t] + rest, gone) == (if t.path in gone then [] else [t]) + Drop(rest, gone)
    ensures Drop([], gone) == []
  {
  }

  lemma {:induction false} DropExtend(ts: seq<Topic>, t: Topic, gone: set<string>)
    ensures Drop(ts + [t], gone) == Drop(ts, gone) + if t.path in gone then [] else [t]
  {
    hide Drop;
    DropFirst(t, [], gone);
    if ts == [] {
      assert ts + [t] == [t] + [];
    } else {
      var rest := ts[1..];
      DropExtend(rest, t, gone);
      assert ts + [t] == [ts[0]] + (rest + [t]) && ts == [ts[0]] + rest;
      DropFirst(ts[0], rest + [t], gone);
      DropFirst(ts[0], rest, gone);
    }
  }

  lemma {:induction false} DropOthers(ts: seq<Topic>, gone: set<string>, more: set<string>)
    requires forall i :: 0 <= i < |ts| ==> ts[i].path !in more
    ensures Drop(ts, gone + more) == Drop(ts, gone)
  {
    if ts != [] {
      DropOthers(ts[1..], gone, more);
    }
  }

  /** Walking the list and going by the paths come to the same. */
  lemma {:induction false} KeptIsDrop(ts: seq<Topic>, at: seq<int>)
    requires |at| == |ts| && DistinctPaths(ts)
    ensures Kept(ts, at) == Drop(ts, Overdue(ts, at))
  {
    if ts != [] {
      hide Drop, Overdue, Kept, DistinctPaths, Expired;
      var n := |ts| - 1;
      KeptLast(ts, at);
      DistinctFront(ts);
      KeptIsDrop(ts[..n], at[..n]);
      OverdueExtend(ts, at);
      NotOverdue(ts[..n], at[..n], ts[n].path);
      DropStep(ts[..n], ts[n], Overdue(ts[..n], at[..n]), Expired(ts[n].topicMa, at[n]));
      SplitLast(ts);
    } else {
      KeptNone(at);
    }
  }

  lemma SplitLast(ts: seq<Topic>)
    requires ts != []
    ensures ts[..|ts| - 1] + [ts[|ts| - 1]] == ts
  {
  }

  lemma DropStep(front: seq<Topic>, t: Topic, gone: set<string>, goes: bool)
    requires t.path !in gone && forall i :: 0 <= i < |front| ==> front[i].path != t.path
    ensures Drop(front + [t], gone + if goes then {t.path} else {}) == Drop(front, gone) + if goes then [] else [t]
  {
    hide Drop;
    var more := if goes then {t.path} else {};
    DropOthers(front, gone, more);
    DropExtend(front, t, gone + more);
  }

  lemma DistinctFront(ts: seq<Topic>)
    requires DistinctPaths(ts) && ts != []
    ensures (var n := |ts| - 1;
             DistinctPaths(ts[..n]) && forall i :: 0 <= i < n ==> ts[..n][i].path != ts[n].path)
  {
  }

  lemma KeptLast(ts: seq<Topic>, at: seq<int>)
    requires |at| == |ts| && ts != []
    ensures (var n := |ts| - 1;
             Kept(ts, at) == Kept(ts[..n], at[..n]) + if Expired(ts[n].topicMa, at[n]) then [] else [ts[n]])
  {
  }

  lemma KeptNone(at: seq<int>)
    requires at == []
    ensures Kept([], at) == [] && forall gone :: Drop([], gone) == []
  {
  }

  lemma NotOverdue(ts: seq<Topic>, at: seq<int>, path: string)
    requires |at| == |ts| && forall i :: 0 <= i < |ts| ==> ts[i].path != path
    ensures path !in Overdue(ts, at)
  {
  }

  lemma OverdueExtend(ts: seq<Topic>, at: seq<int>)
    requires |at| == |ts| && ts != []
    ensures (var n := |ts| - 1;
             Overdue(ts, at)
             == Overdue(ts[..n], at[..n]) + if Expired(ts[n].topicMa, at[n]) then {ts[n].path} else {})
  {
  }

  /** A topic that stays has not expired, so its time counts for the new value. */
  lemma TopicSweepKeeps(ts: seq<Topic>, at: seq<int>, et: int, ed: int)
    requires |at| == |ts| && Sound(ts, et, ed)
    requires forall i :: 0 <= i < |at| ==> et < at[i]
    ensures Sound(Drop(ts, Overdue(ts, at)), NextTopic(ts, et), ed)
  {
    var gone := Overdue(ts, at);
    var us := Drop(ts, gone);
    hide Drop, NextTopic;
    forall i | 0 <= i < |us|
      ensures us[i].topicMa != 0 ==> NextTopic(ts, et) <= us[i].topicMa
      ensures us[i].dataMa != 0 ==> ed <= us[i].dataMa
    {
      var j := FromBefore(ts, gone, i);
      if us[i].topicMa != 0 {
        assert !Expired(ts[j].topicMa, at[j]);
        NextTopicBelow(ts, et, j);
      }
    }
  }

  lemma TopicMonitorKeeps(s: State, readings: seq<int>)
    requires Invariant(s) && Readings(s, readings)
    ensures Invariant(AfterTopicMonitor(s, readings))
  {
    var late := readings[|readings| - 1];
    Weaken(s.topics, s.earliestTopic, s.earliestData, s.now, s.earliestTopic, s.earliestData, late);
    if s.topics != [] && s.earliestTopic < readings[0] {
      var gone := Overdue(s.topics, readings[1..]);
      forall u | u in gone ensures Has(s.topics, u) {
        var i :| 0 <= i < |s.topics| && s.topics[i].path == u;
        EntryAt(s.topics, i);
      }
      KeptIsDrop(s.topics, readings[1..]);
      hide Has, Drop, Kept, NextTopic, Overdue;
      DropInvariant(s.topics, s.resources, gone, s.earliestTopic, s.earliestData, late);
      TopicSweepKeeps(s.topics, readings[1..], s.earliestTopic, s.earliestData);
    }
  }

  /** Every event keeps the invariant. */
  lemma StepKeeps(s: State, e: Event)
    requires Invariant(s) && Enabled(s, e)
    ensures Invariant(Next(s, e))
  {
    hide Agree, Clean, AfterPost, AfterPut, AfterDelete, AfterArrival, AfterDataMonitor, AfterTopicMonitor;
    match e
    case Posted(parent, req, at) => PostKeeps(s, parent, req, at);
    case Got(uri, at) => Weaken(s.topics, s.earliestTopic, s.earliestData, s.now, s.earliestTopic, s.earliestData, at);
    case Put(uri, req, at) => PutKeeps(s, uri, req, at);
    case Deleted(uri) => DeleteKeeps(s, uri);
    case Arrived(name, payload) => ArrivalKeeps(s, name, payload);
    case DataChecked(readings) => DataMonitorKeeps(s, readings);
    case TopicsChecked(readings) => TopicMonitorKeeps(s, readings);
    case Elsewhere(rs) => ElsewhereKeeps(s.topics, s.resources, rs);
  }

  lemma ElsewhereKeeps(ts: seq<Topic>, rs: map<string, Resource>, rs': map<string, Resource>)
    requires Agree(ts, rs) && Formats(rs) && SameTopics(rs, rs')
    ensures Agree(ts, rs') && Formats(rs')
  {
  }

  // ----- whole runs

  /** The states a run goes through, each event enabled where it happens. */
  ghost predicate IsRun(states: seq<State>, events: seq<Event>) {
    && |states| == |events| + 1 && states[0] == Initial
    && forall i :: 0 <= i < |events| ==> Enabled(states[i], events[i]) && states[i + 1] == Next(states[i], events[i])
  }

  lemma InitialHolds()
    ensures Invariant(Initial)
  {
  }

  /** In every state of every run the invariant holds. */
  lemma {:induction false} RunKeeps(states: seq<State>, events: seq<Event>, n: nat)
    requires IsRun(states, events) && n < |states|
    ensures Invariant(states[n])
  {
    hide Invariant, Next, Enabled;
    if n == 0 {
      InitialHolds();
    } else {
      RunKeeps(states, events, n - 1);
      StepKeeps(states[n - 1], events[n - 1]);
    }
  }
}
