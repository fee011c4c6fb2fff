/** The linked list of topics with its read-write locks (LinkedListDB.c), used by one
    thread. */
module TopicLists {
  import opened Bytes
  import opened Topics

  /** TopicData. A lock counts its readers, or is -1 under a writer. */
  class Node {
    const path: string
    var data: Option<seq<byte>>
    var topicMa: int
    var dataMa: int
    var next: Node?
    var nodeLock: int
    var dataLock: int

    constructor (path: string, topicMa: int)
      ensures Value() == Topic(path, None, topicMa, 0)
      ensures next == null && nodeLock == 0 && dataLock == 0
    {
      this.path, data, this.topicMa, dataMa, next := path, None, topicMa, 0, null;
      nodeLock, dataLock := 0, 0;
    }

    ghost function Value(): Topic
      reads `data, `topicMa, `dataMa
    {
      Topic(path, data, topicMa, dataMa)
    }

    // The preconditions are what lets a single thread go on: no lock is taken that
    // it holds itself in a clashing mode, and none is given back that it does not hold.

    method ReadLockNode()
      requires nodeLock >= 0
      modifies `nodeLock
      ensures nodeLock == old(nodeLock) + 1
    {
      nodeLock := nodeLock + 1;
    }

    method WriteLockNode()
      requires nodeLock == 0
      modifies `nodeLock
      ensures nodeLock == -1
    {
      nodeLock := -1;
    }

    method UnlockNode()
      requires nodeLock != 0
      modifies `nodeLock
      ensures nodeLock == if old(nodeLock) > 0 then old(nodeLock) - 1 else 0
    {
      nodeLock := if nodeLock > 0 then nodeLock - 1 else 0;
    }

    method ReadLockData()
      requires dataLock >= 0
      modifies `dataLock
      ensures dataLock == old(dataLock) + 1
    {
      dataLock := dataLock + 1;
    }

    method WriteLockData()
      requires dataLock == 0
      modifies `dataLock
      ensures dataLock == -1
    {
      dataLock := -1;
    }

    method UnlockData()
      requires dataLock != 0
      modifies `dataLock
      ensures dataLock == if old(dataLock) > 0 then old(dataLock) - 1 else 0
    {
      dataLock := if dataLock > 0 then dataLock - 1 else 0;
    }

    /** What setTopic does to the node it found. */
    method Store(data: Option<seq<byte>>, size: nat, topicMa: int, dataMa: int)
      requires nodeLock >= 0 && dataLock == 0
      modifies this
      ensures Value() == Topic(path, Stored(data, size), topicMa, dataMa)
      ensures unchanged(`next) && unchanged(`nodeLock) && unchanged(`dataLock)
    {
      ReadLockNode();
      WriteLockData();
      if size > 0 && data.Some? {
        this.data := Some(CString(data.value[..Min(size, |data.value|)]));
      } else {
        this.data := None;
      }
      this.topicMa := topicMa;
      this.dataMa := dataMa;
      UnlockData();
      UnlockNode();
    }

    /** What deleteTopicData does to the node it found. */
    method Erase()
      requires nodeLock >= 0 && dataLock == 0
      modifies this
      ensures Value() == old(Value()).(data := None, dataMa := 0)
      ensures unchanged(`next) && unchanged(`nodeLock) && unchanged(`dataLock)
    {
      ReadLockNode();
      WriteLockData();
      dataMa := 0;
      data := None;
      UnlockData();
      UnlockNode();
    }

    /** A copy of the node, its strings up to the first NUL. */
    function Copy(): (t: Topic)
      reads `data, `topicMa, `dataMa
      ensures (data.Some? ==> 0 !in data.value) ==> t == Value()
    {
      Topic(path, if data.None? then None else Some(CString(data.value)), topicMa, dataMa)
    }

    /** Hangs a new node behind this one (addTopic). */
    method Link(node: Node, rest: Node?)
      requires nodeLock == 0 && node != this
      modifies `next, `nodeLock, node`next
      ensures next == node && node.next == rest && unchanged(`nodeLock)
    {
      WriteLockNode();
      next := node;
      node.next := rest;
      UnlockNode();
    }

    /** Takes the node behind this one out of the list (deleteTopic). */
    method Bypass(node: Node)
      requires nodeLock == 0 && node.nodeLock == 0 && node != this
      modifies `next, `nodeLock, node`nodeLock
      ensures next == node.next && unchanged(`nodeLock) && unchanged(node`nodeLock)
    {
      WriteLockNode();
      node.WriteLockNode();
      next := node.next;
      node.UnlockNode();
      UnlockNode();
    }

    /** Reads past the node under its lock. */
    method Pass() returns (after: Node?)
      requires nodeLock >= 0
      modifies `nodeLock
      ensures after == next && unchanged(`nodeLock)
    {
      ReadLockNode();
      after := next;
      UnlockNode();
    }

    /** The two pthread_rwlock_destroy calls before a node is freed. */
    method Destroy()
      requires nodeLock == 0 && dataLock == 0
    {
    }
  }

  ghost function At(spine: seq<Node>, i: int): Node? {
    if 0 <= i < |spine| then spine[i] else null
  }

  /** The nodes hang together in this order, each once. */
  ghost predicate Linked(head: Node?, spine: seq<Node>)
    reads spine`next
  {
    && head == At(spine, 0)
    && (forall i {:trigger spine[i].next} :: 0 <= i < |spine| ==> spine[i].next == At(spine, i + 1))
    && (forall i, j :: 0 <= i < j < |spine| ==> spine[i] != spine[j])
  }

  /** What the nodes hold. */
  ghost predicate Hold(spine: seq<Node>, topics: seq<Topic>)
    reads spine`data, spine`topicMa, spine`dataMa
  {
    && |spine| == |topics|
    && (forall i {:trigger topics[i]} {:trigger spine[i].data} :: 0 <= i < |spine| ==> topics[i] == spine[i].Value())
  }

  /** No lock is held, but for a read lock on the k-th node. */
  ghost predicate FreeBut(spine: seq<Node>, k: int)
    reads spine`nodeLock, spine`dataLock
  {
    && (forall i {:trigger spine[i].nodeLock} :: 0 <= i < |spine| ==> spine[i].nodeLock == if i == k then 1 else 0)
    && (forall i {:trigger spine[i].dataLock} :: 0 <= i < |spine| ==> spine[i].dataLock == 0)
  }

  /** Both locks of the k-th node are held by one reader and no other lock is. */
  ghost predicate HeldAt(spine: seq<Node>, k: int)
    reads spine`nodeLock, spine`dataLock
  {
    && (forall i {:trigger spine[i].nodeLock} :: 0 <= i < |spine| ==> spine[i].nodeLock == if i == k then 1 else 0)
    && (forall i {:trigger spine[i].dataLock} :: 0 <= i < |spine| ==> spine[i].dataLock == if i == k then 1 else 0)
  }

  class TopicList {
    var head: Node?
    ghost var spine: seq<Node>
    ghost var topics: seq<Topic>

    /** Between operations: the list is sound and no lock is held. */
    ghost predicate Valid()
      reads this, spine
    {
      Linked(head, spine) && Hold(spine, topics) && FreeBut(spine, -1) && Clean(topics)
    }

    constructor ()
      ensures Valid() && topics == []
    {
      head, spine, topics := null, [], [];
    }

    lemma HeadIsFirst()
      requires Valid()
      ensures head == At(spine, 0) && |spine| == |topics|
    {
    }

    /** A monitor arrives at a node. */
    method Open(node: Node, ghost k: nat) returns (after: Node?)
      requires Valid() && k < |spine| && node == spine[k]
      modifies node`nodeLock, node`dataLock
      ensures HeldAt(spine, k) && after == At(spine, k + 1) && node.Value() == topics[k]
    {
      node.ReadLockNode();
      after := node.next;
      node.ReadLockData();
    }

    /** A monitor lets go of a node. */
    method Close(node: Node, ghost k: nat)
      requires Linked(head, spine) && Hold(spine, topics) && Clean(topics)
      requires k < |spine| && node == spine[k] && HeldAt(spine, k)
      modifies node`nodeLock, node`dataLock
      ensures Valid()
    {
      node.UnlockData();
      node.UnlockNode();
    }

    /** The search that getTopic, cloneTopic and deleteTopic share: one node locked
        at a time, and the one found still locked. */
    method Seek(path: string) returns (previous: Node?, current: Node?, ghost k: nat)
      requires Valid()
      modifies spine`nodeLock
      ensures k == IndexOf(topics, path)
      ensures previous == At(spine, k - 1) && current == At(spine, k)
      ensures FreeBut(spine, k)
    {
      hide Hold, Clean;
      Lengths();
      previous, current, k := null, head, 0;
      while current != null
        invariant k <= |spine| && previous == At(spine, k - 1) && current == At(spine, k)
        invariant FreeBut(spine, -1)
        invariant forall j :: 0 <= j < k ==> topics[j].path != path
        decreases |spine| - k
      {
        current.ReadLockNode();
        assert topics[k].path == current.path;
        if current.path == path {
          break;
        }
        previous, current, k := current, current.next, k + 1;
        previous.UnlockNode();
      }
    }

    /** The node found is unlocked again. */
    method Release(current: Node, ghost k: nat)
      requires k < |spine| && current == spine[k] && FreeBut(spine, k)
      requires forall i, j :: 0 <= i < j < |spine| ==> spine[i] != spine[j]
      modifies current`nodeLock
      ensures FreeBut(spine, -1)
    {
      current.UnlockNode();
    }

    /** What the nodes and the topics have in common. */
    lemma Lengths()
      requires Linked(head, spine) && Hold(spine, topics)
      ensures |spine| == |topics|
      ensures forall i, j :: 0 <= i < j < |spine| ==> spine[i] != spine[j]
      ensures forall i :: 0 <= i < |spine| ==> topics[i] == spine[i].Value()
    {
    }

    lemma NoneHeld()
      requires FreeBut(spine, |spine|)
      ensures FreeBut(spine, -1)
    {
    }

    /** getTopic */
    method GetTopic(path: string) returns (topic: Node?)
      requires Valid()
      modifies spine`nodeLock
      ensures Valid() && topic == At(spine, IndexOf(topics, path))
    {
      hide Linked, Hold, FreeBut, Clean;
      Lengths();
      var previous, current, k := Seek(path);
      if current != null {
        Release(current, k);
      } else {
        NoneHeld();
      }
      topic := current;
    }

    /** cloneTopic: a copy of the topic, its strings up to the first NUL. */
    method CloneTopic(path: string) returns (topic: Option<Topic>)
      requires Valid()
      modifies spine`nodeLock
      ensures Valid() && topic == Find(topics, path)
    {
      hide Linked, Hold, FreeBut;
      Lengths();
      var previous, current, k := Seek(path);
      if current == null {
        NoneHeld();
        return None;
      }
      topic := Some(current.Copy());
      assert topics[k] == current.Value();
      Release(current, k);
    }

    /** setTopic */
    method SetTopic(path: string, data: Option<seq<byte>>, size: nat, topicMa: int, dataMa: int) returns (ok: bool)
      requires Valid()
      modifies `topics, spine
      ensures Valid() && topics == Put(old(topics), path, Stored(data, size), topicMa, dataMa)
      ensures ok == Has(old(topics), path)
    {
      hide Linked, Hold, FreeBut, Clean, IndexOf, Stored;
      Lengths();
      var topic := GetTopic(path);
      if topic == null {
        return false;
      }
      StoreAt(topic, IndexOf(topics, path), data, size, topicMa, dataMa);
      ok := true;
    }

    method StoreAt(topic: Node, ghost k: nat, data: Option<seq<byte>>, size: nat, topicMa: int, dataMa: int)
      requires Valid() && k < |spine| && topic == spine[k]
      modifies `topics, topic
      ensures Valid() && topics == old(topics)[k := Topic(topic.path, Stored(data, size), topicMa, dataMa)]
    {
      hide Stored;
      topic.Store(data, size, topicMa, dataMa);
      topics := topics[k := topic.Value()];
    }

    /** deleteTopicData */
    method DeleteTopicData(path: string) returns (ok: bool)
      requires Valid()
      modifies `topics, spine
      ensures Valid() && topics == WithoutData(old(topics), path)
      ensures ok == Has(old(topics), path)
    {
      hide Linked, Hold, FreeBut, Clean, IndexOf;
      Lengths();
      var topic := GetTopic(path);
      if topic == null {
        return false;
      }
      EraseAt(topic, IndexOf(topics, path));
      ok := true;
    }

    method EraseAt(topic: Node, ghost k: nat)
      requires Valid() && k < |spine| && topic == spine[k]
      modifies `topics, topic
      ensures Valid() && topics == old(topics)[k := old(topics)[k].(data := None, dataMa := 0)]
    {
      topic.Erase();
      topics := topics[k := topic.Value()];
    }

    /** updateTopicInfo */
    method UpdateTopicInfo(path: string, topicMa: int) returns (ok: bool)
      requires Valid()
      modifies `topics, spine
      ensures Valid() && topics == WithInfo(old(topics), path, topicMa)
      ensures ok == Has(old(topics), path)
    {
      var topic := GetTopic(path);
      if topic == null {
        return false;
      }
      assert topics[IndexOf(topics, path)] == topic.Value();
      var size := if topic.data.None? then 0 else |topic.data.value|;
      ok := SetTopic(path, topic.data, size, topicMa, topic.dataMa);
    }

    /** updateTopicData */
    method UpdateTopicData(path: string, dataMa: int, data: Option<seq<byte>>, size: nat) returns (ok: bool)
      requires Valid()
      modifies `topics, spine
      ensures Valid() && topics == WithNewData(old(topics), path, dataMa, data, size)
      ensures ok == Has(old(topics), path)
    {
      var topic := GetTopic(path);
      if topic == null {
        return false;
      }
      assert topics[IndexOf(topics, path)] == topic.Value();
      ok := SetTopic(path, data, size, topic.topicMa, dataMa);
    }

    /** addTopic */
    method AddTopic(path: string, size: nat, topicMa: int) returns (ok: bool)
      requires Valid()
      modifies this, spine
      ensures Valid() && topics == Append(old(topics), path, size, topicMa)
      ensures ok == (size > 0)
      ensures fresh(set n | n in spine && n !in old(spine))
    {
      if size == 0 {
        return false;
      }
      hide Linked, Hold, FreeBut, Clean;
      ghost var node := Grow(path[..Min(size, |path|)], topicMa);
      ok := true;
    }

    /** A new node with this path joins the list at its end. */
    method Grow(path: string, topicMa: int) returns (ghost grown: Node)
      requires Valid()
      modifies this, spine`next, spine`nodeLock
      ensures Valid() && topics == old(topics) + [Topic(path, None, topicMa, 0)]
      ensures fresh(grown) && spine == old(spine) + [grown]
    {
      hide Linked, Hold, FreeBut, Clean;
      var node := new Node(path, topicMa);
      var previous := Final();
      Attach(previous, node);
      Joined(node);
      spine := spine + [node];
      topics := topics + [node.Value()];
      grown := node;
    }

    /** Hangs the new node behind the last one, or at the head. */
    method Attach(previous: Node?, node: Node)
      requires Valid() && previous == At(spine, |spine| - 1)
      requires node !in spine && node.next == null && node.nodeLock == 0 && node.dataLock == 0
      modifies `head, spine`next, spine`nodeLock, node`next
      ensures FreeBut(spine, -1) && Linked(head, spine + [node])
    {
      if previous == null {
        node.next := head;
        head := node;
      } else {
        previous.Link(node, null);
      }
    }

    /** The walk of addTopic to the last node. */
    method Final() returns (previous: Node?)
      requires Valid()
      modifies spine`nodeLock
      ensures Valid() && previous == At(spine, |spine| - 1)
    {
      var current := head;
      previous := null;
      ghost var k := 0;
      while current != null
        invariant k <= |spine| && previous == At(spine, k - 1) && current == At(spine, k)
        invariant FreeBut(spine, -1)
        decreases |spine| - k
      {
        var after := current.Pass();
        previous, current, k := current, after, k + 1;
      }
    }

    /** A free node behind the last one makes a longer list. */
    lemma Joined(node: Node)
      requires node.nodeLock == 0 && node.dataLock == 0 && node.data.None?
      requires Hold(spine, topics) && FreeBut(spine, -1) && Clean(topics)
      ensures Hold(spine + [node], topics + [node.Value()]) && FreeBut(spine + [node], -1)
      ensures Clean(topics + [node.Value()])
    {
    }

    /** addTopicWEC */
    method AddTopicWEC(path: string, size: nat, topicMa: int) returns (ok: bool)
      requires Valid()
      modifies this, spine
      ensures Valid() && topics == Upsert(old(topics), path, size, topicMa)
      ensures ok == (Has(old(topics), path) || size > 0)
      ensures fresh(set n | n in spine && n !in old(spine))
    {
      var topic := GetTopic(path);
      if topic != null {
        ok := UpdateTopicInfo(path, topicMa);
      } else {
        ok := AddTopic(path, size, topicMa);
      }
    }

    /** deleteTopic */
    method DeleteTopic(path: string) returns (ok: bool)
      requires Valid()
      modifies this, spine
      ensures Valid() && topics == Without(old(topics), path)
      ensures ok == Has(old(topics), path)
      ensures forall i :: 0 <= i < |spine| ==> spine[i] in old(spine)
      ensures spine == if ok then DropAt(old(spine), IndexOf(old(topics), path)) else old(spine)
    {
      hide Linked, Hold, FreeBut, Clean, IndexOf;
      Lengths();
      var previous, current, k := Seek(path);
      if current == null {
        NoneHeld();
        return false;
      }
      Release(current, k);
      Unlink(previous, current, k);
      current.Destroy();
      ok := true;
    }

    /** The second half of deleteTopic. */
    method Unlink(previous: Node?, current: Node, ghost k: nat)
      requires Valid() && k < |spine| && current == spine[k] && previous == At(spine, k - 1)
      modifies this, spine`next, spine`nodeLock
      ensures Valid() && topics == DropAt(old(topics), k) && spine == DropAt(old(spine), k)
      ensures current.nodeLock == 0 && current.dataLock == 0
      ensures forall i :: 0 <= i < |spine| ==> spine[i] in old(spine)
    {
      hide Linked, Hold, FreeBut, Clean, DropAt;
      LocksFree(k);
      Reroute(previous, current, k);
      Parted(k);
      DropIn(spine, k);
      spine := DropAt(spine, k);
      topics := DropAt(topics, k);
    }

    lemma DropIn(s: seq<Node>, k: nat)
      requires k < |s|
      ensures forall i :: 0 <= i < |DropAt(s, k)| ==> DropAt(s, k)[i] in s
    {
    }

    lemma LocksFree(k: nat)
      requires k < |spine| && FreeBut(spine, -1)
      ensures spine[k].nodeLock == 0 && spine[k].dataLock == 0
    {
    }

    /** The head or the node before leads past the node, under the locks. */
    method Reroute(previous: Node?, current: Node, ghost k: nat)
      requires Linked(head, spine) && FreeBut(spine, -1)
      requires k < |spine| && current == spine[k] && previous == At(spine, k - 1)
      modifies `head, spine`next, spine`nodeLock
      ensures FreeBut(spine, -1) && Linked(head, DropAt(spine, k))
      ensures current.nodeLock == 0
    {
      if previous == null {
        current.WriteLockNode();
        head := current.next;
        current.UnlockNode();
      } else {
        previous.Bypass(current);
      }
      Skipped(k);
    }

    lemma Skipped(k: nat)
      requires k < |spine| && forall i, j :: 0 <= i < j < |spine| ==> spine[i] != spine[j]
      requires forall i {:trigger spine[i].next} :: 0 <= i < |spine| ==>
        spine[i].next == At(spine, if i == k - 1 then k + 1 else i + 1)
      ensures Linked(At(spine, if k == 0 then 1 else 0), DropAt(spine, k))
    {
    }

    /** Without its k-th node the rest still holds the other topics and no lock. */
    lemma Parted(k: nat)
      requires k < |spine| && Hold(spine, topics) && FreeBut(spine, -1) && Clean(topics)
      ensures Hold(DropAt(spine, k), DropAt(topics, k))
      ensures FreeBut(DropAt(spine, k), -1) && Clean(DropAt(topics, k))
    {
    }

    /** cleanDB */
    method CleanDB()
      requires Valid()
      modifies this, spine
      ensures Valid() && topics == [] && head == null
    {
      ghost var k := 0;
      while head != null
        invariant Valid() && k <= |old(spine)| && spine == old(spine)[k..]
        decreases |spine|
      {
        k := k + 1;
        var node := head;
        node.WriteLockNode();
        head := node.next;
        node.UnlockNode();
        node.Destroy();
        spine := spine[1..];
        topics := topics[1..];
      }
    }
  }
}
