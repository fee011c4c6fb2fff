/** The topic list as a value, and the map it stands for (LinkedListDB.c). */
module Topics {
  import opened Bytes

  /** One topic: its path, its data if it has any, and the times at which the
      topic and its data expire (0 for never). */
  datatype Topic = Topic(path: string, data: Option<seq<byte>>, topicMa: int, dataMa: int)

  /** What snprintf with "%s" keeps of a buffer: the bytes before the first NUL. */
  function CString(bs: seq<byte>): (s: seq<byte>)
    ensures |s| <= |bs| && s == bs[..|s|] && 0 !in s
    ensures |s| < |bs| ==> bs[|s|] == 0
    ensures 0 !in bs ==> s == bs
  {
    if bs == [] || bs[0] == 0 then [] else [bs[0]] + CString(bs[1..])
  }

  // ----- operations on the list

  /** Position of the first topic with this path, or the length of the list. */
  function IndexOf(ts: seq<Topic>, path: string): (i: nat)
    ensures i <= |ts|
    ensures i < |ts| ==> ts[i].path == path
    ensures forall j :: 0 <= j < i ==> ts[j].path != path
  {
    if ts == [] then 0
    else if ts[0].path == path then 0
    else 1 + IndexOf(ts[1..], path)
  }

  predicate Has(ts: seq<Topic>, path: string) {
    IndexOf(ts, path) < |ts|
  }

  /** cloneTopic */
  function Find(ts: seq<Topic>, path: string): Option<Topic> {
    if Has(ts, path) then Some(ts[IndexOf(ts, path)]) else None
  }

  /** The data setTopic stores. */
  function Stored(data: Option<seq<byte>>, size: nat): (r: Option<seq<byte>>)
    ensures r.Some? ==> 0 !in r.value
  {
    if size > 0 && data.Some? then Some(CString(data.value[..Min(size, |data.value|)])) else None
  }

  /** setTopic */
  function Put(ts: seq<Topic>, path: string, data: Option<seq<byte>>, topicMa: int, dataMa: int): seq<Topic> {
    if Has(ts, path) then ts[IndexOf(ts, path) := Topic(path, data, topicMa, dataMa)] else ts
  }

  /** addTopic; an empty path is refused and a longer one cut down to its size. */
  function Append(ts: seq<Topic>, path: string, size: nat, topicMa: int): seq<Topic> {
    if size == 0 then ts else ts + [Topic(path[..Min(size, |path|)], None, topicMa, 0)]
  }

  /** deleteTopic */
  function Without(ts: seq<Topic>, path: string): seq<Topic> {
    if Has(ts, path) then DropAt(ts, IndexOf(ts, path)) else ts
  }

  function DropAt<T>(s: seq<T>, i: nat): (r: seq<T>)
    requires i < |s|
    ensures |r| == |s| - 1
    ensures forall j :: 0 <= j < i ==> r[j] == s[j]
    ensures forall j :: i <= j < |r| ==> r[j] == s[j + 1]
  {
    s[..i] + s[i + 1..]
  }

  /** deleteTopicData */
  function WithoutData(ts: seq<Topic>, path: string): seq<Topic> {
    if Has(ts, path) then
      ts[IndexOf(ts, path) := ts[IndexOf(ts, path)].(data := None, dataMa := 0)]
    else ts
  }

  /** updateTopicInfo, through which empty data is dropped. */
  function WithInfo(ts: seq<Topic>, path: string, topicMa: int): seq<Topic> {
    if Has(ts, path) then
      var t := ts[IndexOf(ts, path)];
      Put(ts, path, Stored(t.data, if t.data.None? then 0 else |t.data.value|), topicMa, t.dataMa)
    else ts
  }

  /** updateTopicData */
  function WithNewData(ts: seq<Topic>, path: string, dataMa: int, data: Option<seq<byte>>, size: nat): seq<Topic> {
    if Has(ts, path) then Put(ts, path, Stored(data, size), ts[IndexOf(ts, path)].topicMa, dataMa) else ts
  }

  /** addTopicWEC */
  function Upsert(ts: seq<Topic>, path: string, size: nat, topicMa: int): seq<Topic> {
    if Has(ts, path) then WithInfo(ts, path, topicMa) else Append(ts, path, size, topicMa)
  }

  // ----- what they mean: a map from paths to topics, kept in order of insertion

  predicate DistinctPaths(ts: seq<Topic>) {
    forall i, j :: 0 <= i < j < |ts| ==> ts[i].path != ts[j].path
  }

  /** No stored data holds a NUL byte. */
  predicate Clean(ts: seq<Topic>) {
    forall i :: 0 <= i < |ts| && ts[i].data.Some? ==> 0 !in ts[i].data.value
  }

  function PathsOf(ts: seq<Topic>): (ps: seq<string>)
    ensures |ps| == |ts| && forall i :: 0 <= i < |ts| ==> ps[i] == ts[i].path
  {
    seq(|ts|, i requires 0 <= i < |ts| => ts[i].path)
  }

  /** The topic under each path. */
  ghost function Entries(ts: seq<Topic>): map<string, Topic> {
    map p | p in PathsOf(ts) && Has(ts, p) :: ts[IndexOf(ts, p)]
  }

  lemma HasPath(ts: seq<Topic>, path: string)
    ensures Has(ts, path) <==> path in PathsOf(ts)
    ensures Has(ts, path) <==> path in Entries(ts)
  {
  }

  /** In a list of distinct paths every topic is the entry of its path. */
  lemma EntryAt(ts: seq<Topic>, i: nat)
    requires DistinctPaths(ts) && i < |ts|
    ensures IndexOf(ts, ts[i].path) == i
    ensures ts[i].path in Entries(ts) && Entries(ts)[ts[i].path] == ts[i]
  {
  }

  lemma EntriesCover(ts: seq<Topic>, path: string)
    requires path in Entries(ts)
    ensures exists i :: 0 <= i < |ts| && ts[i].path == path && Entries(ts)[path] == ts[i]
  {
  }

  /** What it takes for a map to hold exactly the topics of a list. */
  lemma EntriesAre(ts: seq<Topic>, m: map<string, Topic>)
    requires DistinctPaths(ts)
    requires forall i :: 0 <= i < |ts| ==> ts[i].path in m && m[ts[i].path] == ts[i]
    requires forall p :: p in m ==> Has(ts, p)
    ensures Entries(ts) == m
  {
  }

  /** Overwriting an entry. */
  lemma ReplaceRefines(ts: seq<Topic>, i: nat, t: Topic)
    requires DistinctPaths(ts) && i < |ts| && t.path == ts[i].path
    ensures DistinctPaths(ts[i := t]) && PathsOf(ts[i := t]) == PathsOf(ts)
    ensures Entries(ts[i := t]) == Entries(ts)[t.path := t]
  {
    var us := ts[i := t];
    forall p | p in Entries(ts)[t.path := t] ensures Has(us, p) {
      HasPath(ts, p);
      HasPath(us, p);
      assert PathsOf(us)[i] == t.path;
      assert PathsOf(us) == PathsOf(ts);
    }
    forall j | 0 <= j < |us|
      ensures us[j].path in Entries(ts)[t.path := t] && Entries(ts)[t.path := t][us[j].path] == us[j]
    {
      EntryAt(ts, j);
    }
    hide Entries, PathsOf;
    EntriesAre(us, Entries(ts)[t.path := t]);
  }

  /** setTopic writes one entry and no other, and only one that is there. */
  lemma PutRefines(ts: seq<Topic>, path: string, data: Option<seq<byte>>, topicMa: int, dataMa: int)
    requires DistinctPaths(ts)
    ensures (var us := Put(ts, path, data, topicMa, dataMa);
             && DistinctPaths(us) && PathsOf(us) == PathsOf(ts)
             && Entries(us) == if path in Entries(ts) then Entries(ts)[path := Topic(path, data, topicMa, dataMa)]
                               else Entries(ts))
  {
    HasPath(ts, path);
    if Has(ts, path) {
      ReplaceRefines(ts, IndexOf(ts, path), Topic(path, data, topicMa, dataMa));
    }
  }

  /** updateTopicData keeps the topic's own expiry time. */
  lemma NewDataRefines(ts: seq<Topic>, path: string, dataMa: int, data: Option<seq<byte>>, size: nat)
    requires DistinctPaths(ts)
    ensures (var us := WithNewData(ts, path, dataMa, data, size);
             && DistinctPaths(us) && PathsOf(us) == PathsOf(ts)
             && Entries(us) == if path !in Entries(ts) then Entries(ts)
                               else Entries(ts)[path := Entries(ts)[path].(data := Stored(data, size), dataMa := dataMa)])
  {
    HasPath(ts, path);
    if Has(ts, path) {
      PutRefines(ts, path, Stored(data, size), ts[IndexOf(ts, path)].topicMa, dataMa);
    }
  }

  /** updateTopicInfo changes the expiry time of the topic; it keeps the data just
      when that is not the empty string, which it turns into no data. */
  lemma InfoRefines(ts: seq<Topic>, path: string, topicMa: int)
    requires DistinctPaths(ts) && Clean(ts)
    ensures (var us := WithInfo(ts, path, topicMa);
             && DistinctPaths(us) && PathsOf(us) == PathsOf(ts) && Clean(us)
             && (path !in Entries(ts) ==> us == ts)
             && (path in Entries(ts) ==>
                   var t := Entries(ts)[path];
                   && path in Entries(us)
                   && Entries(us) == Entries(ts)[path := Entries(us)[path]]
                   && Entries(us)[path] == t.(topicMa := topicMa, data := if t.data == Some([]) then None else t.data)
                   && (Entries(us)[path].data == t.data <==> t.data != Some([]))))
  {
    hide Stored, IndexOf, PathsOf;
    HasPath(ts, path);
    if Has(ts, path) {
      var t := ts[IndexOf(ts, path)];
      var kept := Stored(t.data, if t.data.None? then 0 else |t.data.value|);
      StoredAgain(t.data);
      PutRefines(ts, path, kept, topicMa, t.dataMa);
    }
  }

  /** Storing clean data again keeps them unless they are the empty string. */
  lemma StoredAgain(data: Option<seq<byte>>)
    requires data.Some? ==> 0 !in data.value
    ensures Stored(data, if data.None? then 0 else |data.value|) == if data == Some([]) then None else data
  {
    if data.Some? {
      var d := data.value;
      assert d[..Min(|d|, |d|)] == d;
    }
  }

  /** deleteTopicData */
  lemma WithoutDataRefines(ts: seq<Topic>, path: string)
    requires DistinctPaths(ts)
    ensures (var us := WithoutData(ts, path);
             && DistinctPaths(us) && PathsOf(us) == PathsOf(ts)
             && Entries(us) == if path !in Entries(ts) then Entries(ts)
                               else Entries(ts)[path := Entries(ts)[path].(data := None, dataMa := 0)])
  {
    HasPath(ts, path);
    if Has(ts, path) {
      var i := IndexOf(ts, path);
      ReplaceRefines(ts, i, ts[i].(data := None, dataMa := 0));
    }
  }

  lemma DropKeepsDistinct(ts: seq<Topic>, i: nat)
    requires DistinctPaths(ts) && i < |ts|
    ensures DistinctPaths(DropAt(ts, i))
    ensures forall j :: 0 <= j < |ts| && j != i ==> Has(DropAt(ts, i), ts[j].path)
  {
    var us := DropAt(ts, i);
    hide DropAt, IndexOf;
    forall j, k | 0 <= j < k < |us| ensures us[j].path != us[k].path {
      assert ts[if j < i then j else j + 1].path != ts[if k < i then k else k + 1].path;
    }
    forall j | 0 <= j < |ts| && j != i ensures Has(us, ts[j].path) {
      var k := if j < i then j else j - 1;
      assert us[k] == ts[j];
      EntryAt(us, k);
    }
  }

  lemma DropEntries(ts: seq<Topic>, i: nat)
    requires DistinctPaths(ts) && i < |ts|
    ensures Entries(DropAt(ts, i)) == Entries(ts) - {ts[i].path}
  {
    hide DropAt, Entries, PathsOf, IndexOf, Has;
    var us, m := DropAt(ts, i), Entries(ts) - {ts[i].path};
    DropKeepsDistinct(ts, i);
    forall p | p in m ensures Has(us, p) {
      EntriesCover(ts, p);
    }
    forall j | 0 <= j < |us| ensures us[j].path in m && m[us[j].path] == us[j] {
      if j < i {
        EntryAt(ts, j);
        assert ts[j].path != ts[i].path;
      } else {
        EntryAt(ts, j + 1);
        assert ts[j + 1].path != ts[i].path;
      }
    }
    EntriesAre(us, m);
  }

  /** deleteTopic removes one entry and leaves the others in their order. */
  lemma WithoutRefines(ts: seq<Topic>, path: string)
    requires DistinctPaths(ts)
    ensures (var us := Without(ts, path);
             && DistinctPaths(us)
             && Entries(us) == Entries(ts) - {path}
             && (path in Entries(ts) ==> us == DropAt(ts, IndexOf(ts, path)))
             && (path !in Entries(ts) ==> us == ts))
  {
    HasPath(ts, path);
    if Has(ts, path) {
      DropKeepsDistinct(ts, IndexOf(ts, path));
      DropEntries(ts, IndexOf(ts, path));
    } else {
      assert Entries(ts) - {path} == Entries(ts);
    }
  }

  /** addTopic keeps the paths distinct exactly when the path it stores is new, or
      none is stored; then it adds that entry, at the end. */
  lemma AppendRefines(ts: seq<Topic>, path: string, size: nat, topicMa: int)
    requires DistinctPaths(ts)
    ensures (var us := Append(ts, path, size, topicMa);
             var stored := path[..Min(size, |path|)];
             && (DistinctPaths(us) <==> size == 0 || stored !in Entries(ts))
             && (size > 0 && stored !in Entries(ts) ==>
                   Entries(us) == Entries(ts)[stored := Topic(stored, None, topicMa, 0)]))
  {
    var us := Append(ts, path, size, topicMa);
    var stored := path[..Min(size, |path|)];
    HasPath(ts, stored);
    if size > 0 {
      if stored in Entries(ts) {
        var i := IndexOf(ts, stored);
        assert us[i].path == us[|ts|].path;
      } else {
        AppendEntries(ts, us[|ts|]);
      }
    }
  }

  lemma AppendEntries(ts: seq<Topic>, t: Topic)
    requires DistinctPaths(ts) && !Has(ts, t.path)
    ensures DistinctPaths(ts + [t]) && Entries(ts + [t]) == Entries(ts)[t.path := t]
  {
    hide Entries, PathsOf;
    var us, m := ts + [t], Entries(ts)[t.path := t];
    assert forall i :: 0 <= i < |ts| ==> us[i] == ts[i] && ts[i].path != t.path;
    forall p | p in m ensures Has(us, p) {
      HasPath(ts, p);
      assert us[if p == t.path then |ts| else IndexOf(ts, p)].path == p;
    }
    forall j | 0 <= j < |us| ensures us[j].path in m && m[us[j].path] == us[j] {
      if j < |ts| {
        EntryAt(ts, j);
      }
    }
    EntriesAre(us, m);
  }
}
