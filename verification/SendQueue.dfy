/** The queue of confirmable messages awaiting an answer (net.c). Each node holds
    its time relative to the node before it. */
module SendQueue {
  import opened Bytes

  /** coap_queue_t; the peer and the token are what messages are cancelled by, and the
      code tells responses from requests. The ghost fields record the deadline the node stands for, counted from the base
      time of its queue, and how often its message went out. */
  class Node {
    var next: Node?
    var t: nat
    var retransmitCnt: nat
    var timeout: nat
    const id: int
    const remote: nat
    const token: seq<byte>
    const code: byte
    ghost var due: nat
    ghost var sent: nat

    constructor (id: int, remote: nat, token: seq<byte>, code: byte, timeout: nat)
      ensures this.id == id && this.remote == remote && this.token == token && this.code == code
      ensures this.timeout == timeout
      ensures next == null && t == 0 && retransmitCnt == 0 && sent == 0
    {
      this.id, this.remote, this.token, this.code, this.timeout := id, remote, token, code, timeout;
      next, t, retransmitCnt := null, 0, 0;
      sent := 0;
    }

    predicate Matches(dst: nat, token: seq<byte>) {
      remote == dst && this.token == token
    }
  }

  ghost function At(spine: seq<Node>, i: nat): Node? {
    if i < |spine| then spine[i] else null
  }

  /** The nodes hang together in this order, each once. */
  ghost predicate Linked(head: Node?, spine: seq<Node>)
    reads spine`next
  {
    && head == At(spine, 0)
    && (forall i {:trigger spine[i].next} :: 0 <= i < |spine| ==> spine[i].next == At(spine, i + 1))
    && Distinct(spine)
  }

  ghost predicate Distinct(spine: seq<Node>) {
    forall i, j :: 0 <= i < j < |spine| ==> spine[i] != spine[j]
  }

  /** The relative times add up to the deadlines. */
  ghost predicate Timed(spine: seq<Node>)
    reads spine`t, spine`due
  {
    forall i {:trigger spine[i].t} :: 0 <= i < |spine| ==> spine[i].t == spine[i].due - Before(spine, i)
  }

  /** The deadline of the node before the i-th one. */
  ghost function Before(spine: seq<Node>, i: nat): nat
    requires i <= |spine|
    reads spine`due
  {
    if i == 0 then 0 else spine[i - 1].due
  }

  class Queue {
    var head: Node?
    var basetime: int
    ghost var spine: seq<Node>

    ghost predicate Valid()
      reads this, spine
    {
      Linked(head, spine) && Timed(spine)
    }

    constructor ()
      ensures Valid() && spine == [] && basetime == 0
    {
      head, basetime, spine := null, 0, [];
    }

    lemma HeadIsFirst()
      requires Valid()
      ensures head == At(spine, 0) && (head != null ==> head.t == head.due) && Distinct(spine)
    {
    }

    /** Deadlines never decrease along the queue. */
    lemma {:induction false} Ordered(i: nat, j: nat)
      requires Valid() && i <= j < |spine|
      ensures spine[i].due <= spine[j].due
      decreases j - i
    {
      if i < j {
        assert spine[j].t == spine[j].due - Before(spine, j);
        Ordered(i, j - 1);
      }
    }

    /** coap_insert_node: the node goes right behind the last deadline up to its own,
        and no other deadline changes; with Ordered it is behind all of those. */
    method Insert(node: Node) returns (ghost k: nat)
      requires Valid() && node !in spine && node.next == null
      modifies `head, `spine, spine`next, spine`t, node`next, node`t, node`due
      ensures Valid() && node.due == old(node.t) && k <= |old(spine)|
      ensures spine == old(spine)[..k] + [node] + old(spine)[k..]
      ensures k > 0 ==> old(spine)[k - 1].due <= node.due
      ensures k < |old(spine)| ==> old(spine)[k].due > node.due
    {
      HeadIsFirst();
      hide Linked, Timed;
      node.due := node.t;
      var p: Node?, q := null, head;
      k := 0;
      if q != null && q.t <= node.t {
        p, q, k := Walk(node);
      }
      Splice(p, q, node, k);
    }

    /** The search of coap_insert_node: past every deadline up to the node's own,
        making its time relative on the way. */
    method Walk(node: Node) returns (p: Node, q: Node?, ghost k: nat)
      requires Valid() && node !in spine && head != null && head.t <= node.t
      modifies node`t
      ensures 1 <= k <= |spine| && p == spine[k - 1] && q == At(spine, k)
      ensures node.t + p.due == old(node.t)
      ensures q != null ==> q.t > node.t && q.t + p.due == q.due
    {
      q := head;
      node.t := node.t - q.t;
      p, q, k := q, q.next, 1;
      while q != null && q.t <= node.t
        invariant Valid() && 1 <= k <= |spine| && p == spine[k - 1] && q == At(spine, k)
        invariant node.t + p.due == old(node.t)
        decreases |spine| - k
      {
        node.t := node.t - q.t;
        p, q, k := q, q.next, k + 1;
      }
    }

    /** Links the node in between `p` and `q` and makes the time of `q` relative to it. */
    method Splice(p: Node?, q: Node?, node: Node, ghost k: nat)
      requires Valid() && node !in spine && node.next == null && k <= |spine|
      requires p == (if k == 0 then null else spine[k - 1]) && q == At(spine, k)
      requires node.t == node.due - Before(spine, k) && (q != null ==> node.t <= q.t)
      modifies `head, `spine, spine`next, spine`t, node`next
      ensures Valid() && spine == old(spine)[..k] + [node] + old(spine)[k..]
    {
      ghost var s := spine;
      if q != null {
        q.t := q.t - node.t;
      }
      node.next := q;
      if p == null {
        head := node;
      } else {
        p.next := node;
      }
      InsertLinked(s, k, node);
      InsertTimed(s, k, node);
      spine := s[..k] + [node] + s[k..];
    }

    /** coap_pop_next: the first node leaves with its deadline as its time. */
    method Pop() returns (r: Node?)
      requires Valid()
      modifies `head, `spine, spine`next, spine`t
      ensures Valid()
      ensures r == null <==> old(spine) == []
      ensures r == null ==> spine == []
      ensures r != null ==> r == old(spine)[0] && spine == old(spine)[1..] && r.t == r.due && r.next == null
    {
      HeadIsFirst();
      hide Linked, Timed;
      if head == null { return null; }
      r := head;
      Unlink(null, r, 0);
      assert old(spine)[..0] + old(spine)[1..] == old(spine)[1..];
    }

    /** coap_remove_from_queue: the first node with this transaction id, if any; no
        deadline changes. */
    method Remove(id: int) returns (r: Node?, ghost k: nat)
      requires Valid()
      modifies `head, `spine, spine`next, spine`t
      ensures Valid()
      ensures k <= |old(spine)| && forall i :: 0 <= i < k ==> old(spine)[i].id != id
      ensures r == At(old(spine), k) && (r != null ==> r.id == id && r.next == null)
      ensures spine == if r == null then old(spine) else old(spine)[..k] + old(spine)[k + 1..]
    {
      var p: Node? := null;
      r, k := head, 0;
      while r != null && r.id != id
        invariant k <= |spine| && r == At(spine, k) && p == if k == 0 then null else spine[k - 1]
        invariant forall i :: 0 <= i < k ==> spine[i].id != id
        decreases |spine| - k
      {
        p, r, k := r, r.next, k + 1;
      }
      if r != null {
        Unlink(p, r, k);
      }
    }

    /** Takes the node `n` out and gives its time to the node behind it. */
    method Unlink(p: Node?, n: Node, ghost k: nat)
      requires Valid() && k < |spine| && n == spine[k]
      requires p == if k == 0 then null else spine[k - 1]
      modifies `head, `spine, spine`next, spine`t
      ensures Valid() && n.next == null && n.t == old(n.t)
      ensures spine == old(spine)[..k] + old(spine)[k + 1..]
    {
      hide Linked, Timed;
      CloseGap(n, k);
      Detach(p, n, k);
      spine := spine[..k] + spine[k + 1..];
    }

    /** The node behind gets the time of the one that goes. */
    method CloseGap(n: Node, ghost k: nat)
      requires Valid() && k < |spine| && n == spine[k]
      modifies spine`t
      ensures n.t == old(n.t) && Timed(spine[..k] + spine[k + 1..])
    {
      if n.next != null {
        n.next.t := n.next.t + n.t;
      }
      RemoveTimed(spine, k);
    }

    /** The links lead past the node that goes. */
    method Detach(p: Node?, n: Node, ghost k: nat)
      requires Linked(head, spine) && k < |spine| && n == spine[k]
      requires p == if k == 0 then null else spine[k - 1]
      modifies `head, spine`next
      ensures n.next == null && Linked(head, spine[..k] + spine[k + 1..])
    {
      if p == null {
        head := n.next;
      } else {
        p.next := n.next;
      }
      n.next := null;
      RemoveLinked(spine, k);
    }

    /** coap_adjust_basetime. A clock that has not moved on only delays the first
        node, and all deadlines stay where they are in time. Otherwise the nodes
        overdue are counted and their times set to zero. The first other node then
        gets the time elapsed since the deadline before it, where the time left was
        to be expected; those not overdue stay where they are in time exactly when
        the two are the same. */
    method AdjustBasetime(now: int) returns (result: nat)
      requires Valid()
      modifies `basetime, spine`t, spine`due
      ensures Valid() && basetime == now && result <= |spine|
      ensures now <= old(basetime) ==>
                result == 0 && forall n :: n in spine ==> basetime + n.due == old(basetime) + old(n.due)
      ensures now > old(basetime) ==>
                && result == CountBelow(old(Dues(spine)), now - old(basetime))
                && Shifted(spine, old(Dues(spine)), now - old(basetime), result)
                && (AllStay(old(Dues(spine)), Dues(spine), now - old(basetime), result)
                    <==> TimeLeftIsElapsed(old(Dues(spine)), now - old(basetime)))
    {
      hide Linked, Timed, Shifted, Zeroed, AllStay, TimeLeftIsElapsed, CountBelow;
      HeadIsFirst();
      DuesSorted();
      ghost var ds := Dues(spine);
      var delta := now - basetime;
      result := 0;
      if head != null {
        if delta <= 0 {
          Delay(-delta);
        } else {
          result := MoveOn(delta);
        }
      } else {
        assert spine == [];
        if delta > 0 {
          EmptyShifted(ds, delta);
        }
      }
      if delta > 0 {
        ShiftedCount(spine, ds, delta, result);
        StaysWhen(spine, ds, delta, result);
      }
      basetime := now;
    }

    /** The part for a clock that has moved on. */
    method MoveOn(delta: nat) returns (result: nat)
      requires Valid()
      modifies spine`t, spine`due
      ensures Valid() && Shifted(spine, old(Dues(spine)), delta, result) && result <= |spine|
    {
      hide Linked, Timed, Shifted, Zeroed;
      ghost var ds := Dues(spine);
      result := ZeroOverdue(delta);
      assert Dues(spine) == ds;
      Redate(delta, result);
    }

    lemma DuesSorted()
      requires Valid()
      ensures Ascending(Dues(spine))
    {
      forall i, j | 0 <= i <= j < |spine| ensures spine[i].due <= spine[j].due {
        Ordered(i, j);
      }
    }

    /** All deadlines move by `d` when the first node does. */
    method Delay(d: nat)
      requires Valid() && head != null
      modifies spine`t, spine`due
      ensures Valid() && forall n :: n in spine ==> n.due == old(n.due) + d
    {
      head.t := head.t + d;
      forall n | n in spine {
        n.due := n.due + d;
      }
    }

    /** The loop of coap_adjust_basetime and the assignment behind it. */
    method ZeroOverdue(delta: nat) returns (result: nat)
      requires Valid()
      modifies spine`t
      ensures Linked(head, spine) && Zeroed(spine, delta, result) && result <= |spine|
    {
      var q, t := head, 0;
      result := 0;
      while q != null && t + q.t < delta
        invariant result <= |spine| && q == At(spine, result)
        invariant Linked(head, spine)
        invariant t == Before(spine, result) && (result > 0 ==> t < delta)
        invariant forall i {:trigger spine[i].t} :: 0 <= i < |spine| ==>
                    spine[i].t == if i < result then 0 else spine[i].due - Before(spine, i)
        decreases |spine| - result
      {
        t := t + q.t;
        q.t := 0;
        result := result + 1;
        q := q.next;
      }
      if q != null {
        q.t := delta - t;
      }
    }

    /** The deadlines these times stand for. */
    ghost method Redate(delta: nat, k: nat)
      requires Linked(head, spine) && Zeroed(spine, delta, k)
      modifies spine`due
      ensures Valid() && Shifted(spine, old(Dues(spine)), delta, k)
    {
      var before := Before(spine, k);
      var first := if k < |spine| then spine[k].due else 0;
      DistanceFromFirst(k);
      forall i | 0 <= i < |spine| {
        spine[i].due := if i < k then 0 else spine[i].due - first + (delta - before);
      }
    }

    /** The deadlines from the k-th on are at least its own. */
    lemma {:induction false} DistanceFromFirst(k: nat)
      requires forall i {:trigger spine[i].t} :: k < i < |spine| ==> spine[i].t == spine[i].due - Before(spine, i)
      ensures forall i {:trigger spine[i].due} :: k <= i < |spine| ==> spine[i].due >= spine[k].due
    {
      forall i | k <= i < |spine| ensures spine[i].due >= spine[k].due {
        DistanceAt(k, i);
      }
    }

    lemma {:induction false} DistanceAt(k: nat, i: nat)
      requires k <= i < |spine|
      requires forall i {:trigger spine[i].t} :: k < i < |spine| ==> spine[i].t == spine[i].due - Before(spine, i)
      ensures spine[i].due >= spine[k].due
      decreases i
    {
      if k < i {
        assert spine[i].t == spine[i].due - Before(spine, i);
        DistanceAt(k, i - 1);
      }
    }

    /** coap_cancel_all_messages: the messages to this peer with this token go, the
        others stay in order with their relative times as they are. So each deadline
        moves up by the times of the removed nodes before it, and none moves that has
        no such node before it. */
    method CancelAll(dst: nat, token: seq<byte>)
      requires Valid()
      modifies `head, `spine, spine`next, spine`due
      ensures Valid() && spine == Kept(old(spine), dst, token)
      ensures forall n :: n in spine ==> n in old(spine)
      ensures forall n :: n in old(spine) ==> (n in spine <==> !(n.remote == dst && n.token == token))
      ensures SameOrder(spine, old(spine))
      ensures forall i :: 0 <= i < |old(spine)| && NoneTo(old(spine)[..i], dst, token) ==>
                old(spine)[i].due == old(spine[i].due)
      ensures forall i :: 0 <= i < |old(spine)| ==>
                var n := old(spine)[i];
                n.due == old(n.due) - old(RemovedTime(spine[..i], dst, token))
    {
      hide Timed, Linked, Kept, RemovedTime, SameOrder, NoneTo, Spaced;
      ghost var s, ds := spine, Dues(spine);
      HeadIsFirst();
      SpacedOut();
      KeptFields(s, dst, token);
      NothingTo(s, dst, token);
      Relink(dst, token);
      Retime(s, ds, dst, token);
    }

    lemma SpacedOut()
      requires Valid()
      ensures Spaced(spine, Dues(spine))
    {
    }

    /** The deadlines the relative times left over stand for. */
    ghost method Retime(s: seq<Node>, ds: seq<nat>, dst: nat, token: seq<byte>)
      requires Linked(head, spine) && spine == Kept(s, dst, token) && Distinct(s)
      requires Spaced(s, ds) && forall i {:trigger s[i].due} :: 0 <= i < |s| ==> s[i].due == ds[i]
      modifies s`due
      ensures Valid()
      ensures forall i {:trigger s[i].due} :: 0 <= i < |s| ==> s[i].due == ds[i] - RemovedTime(s[..i], dst, token)
    {
      hide Linked;
      forall i | 0 <= i < |s| ensures RemovedTime(s[..i], dst, token) <= ds[i] {
        RemovedAtMost(s, ds, i, dst, token);
        assert s[i].t == ds[i] - Prior(ds, i);
      }
      forall i | 0 <= i < |s| {
        s[i].due := s[i].due - RemovedTime(s[..i], dst, token);
      }
      KeptTimes(s, ds, |s|, dst, token);
      assert s[..|s|] == s;
    }

    /** Both loops of coap_cancel_all_messages. */
    method Relink(dst: nat, token: seq<byte>)
      requires Linked(head, spine)
      modifies `head, `spine, spine`next
      ensures Linked(head, spine) && spine == Kept(old(spine), dst, token)
    {
      ghost var s := spine;
      DropFront(dst, token);
      if head != null {
        assert forall i :: 0 <= i < |spine| ==> spine[i] in s;
        DropRest(dst, token);
      } else {
        assert spine == [];
      }
    }

    /** The first loop: the head is advanced past every match. */
    method DropFront(dst: nat, token: seq<byte>)
      requires Linked(head, spine)
      modifies `head, `spine
      ensures Linked(head, spine) && Kept(spine, dst, token) == Kept(old(spine), dst, token)
      ensures spine != [] ==> !spine[0].Matches(dst, token)
      ensures forall n :: n in spine ==> n in old(spine)
    {
      while head != null && head.Matches(dst, token)
        invariant Linked(head, spine) && Kept(spine, dst, token) == Kept(old(spine), dst, token)
        invariant forall n :: n in spine ==> n in old(spine)
        decreases |spine|
      {
        KeptFirst(spine, dst, token);
        head := head.next;
        spine := spine[1..];
      }
    }

    /** The second loop: `p` is the last node kept, `q` the one under test. */
    method DropRest(dst: nat, token: seq<byte>)
      requires Linked(head, spine) && spine != [] && !spine[0].Matches(dst, token)
      modifies `spine, spine`next
      ensures Linked(head, spine) && spine == Kept(old(spine), dst, token)
    {
      hide Kept;
      ghost var s := spine;
      KeptNext(s, 0, dst, token);
      KeptNone(dst, token);
      var p, q := head, head.next;
      ghost var k, kept := 1, [p];
      while q != null
        invariant k <= |s| && q == At(s, k) && kept == Kept(s[..k], dst, token)
        invariant kept != [] && head == kept[0] && p == kept[|kept| - 1]
        invariant Distinct(kept) && Apart(kept, s, k) && Chain(kept, q)
        invariant p in s && ChainFrom(s, k) && Distinct(s)
        decreases |s| - k
      {
        KeptNext(s, k, dst, token);
        if q.Matches(dst, token) {
          p.next := q.next;
          q := p.next;
        } else {
          p, q := q, q.next;
          kept := kept + [p];
        }
        k := k + 1;
      }
      spine := kept;
      assert s[..k] == s;
    }
  }

  ghost predicate ChainFrom(s: seq<Node>, k: nat)
    reads s
  {
    forall i {:trigger s[i].next} :: k <= i < |s| ==> s[i].next == At(s, i + 1)
  }

  ghost predicate Apart(kept: seq<Node>, s: seq<Node>, k: nat) {
    forall i, j :: 0 <= i < |kept| && k <= j < |s| ==> kept[i] != s[j]
  }

  /** Each node leads to the next, the last one to `end`. */
  ghost predicate Chain(s: seq<Node>, end: Node?)
    reads s
  {
    forall i {:trigger s[i].next} :: 0 <= i < |s| ==> s[i].next == if i + 1 < |s| then s[i + 1] else end
  }

  /** The times after coap_adjust_basetime, `k` nodes overdue, with the deadlines of before. */
  ghost predicate Zeroed(spine: seq<Node>, delta: nat, k: nat)
    reads spine`t, spine`due
  {
    && k <= |spine|
    && (k > 0 ==> spine[k - 1].due < delta)
    && (k < |spine| ==> spine[k].due >= delta)
    && (forall i {:trigger spine[i].t} :: 0 <= i < |spine| ==>
          spine[i].t == if i < k then 0 else (if i == k then delta else spine[i].due) - Before(spine, i))
  }

  /** What coap_adjust_basetime makes of the deadlines, `k` of them overdue. */
  ghost predicate Shifted(spine: seq<Node>, ds: seq<nat>, delta: nat, k: nat)
    reads spine`due
  {
    && k <= |spine| == |ds|
    && (k > 0 ==> ds[k - 1] < delta)
    && (k < |spine| ==> ds[k] >= delta)
    && (forall i {:trigger spine[i].due} :: 0 <= i < |spine| ==> spine[i].due == NewDue(ds, delta, k, i))
  }

  lemma EmptyShifted(ds: seq<nat>, delta: nat)
    requires ds == []
    ensures Shifted([], ds, delta, 0)
  {
  }

  /** A deadline after coap_adjust_basetime: none for overdue nodes; the others keep
      their distance from the first of them, which is put where the time elapsed
      since the deadline before it is over. */
  function NewDue(ds: seq<nat>, delta: nat, k: nat, i: nat): int
    requires k <= |ds| && i < |ds|
  {
    if i < k then 0 else ds[i] - ds[k] + (delta - Prior(ds, k))
  }

  ghost predicate Ascending(ds: seq<nat>) {
    forall i, j :: 0 <= i <= j < |ds| ==> ds[i] <= ds[j]
  }

  /** How many deadlines lie before `delta`. */
  function CountBelow(ds: seq<nat>, delta: nat): nat {
    if ds == [] then 0
    else CountBelow(ds[..|ds| - 1], delta) + if ds[|ds| - 1] < delta then 1 else 0
  }

  /** With the base time `delta` later, the deadlines from the k-th on are the same
      points in time. */
  predicate AllStay(ds: seq<nat>, ds': seq<nat>, delta: nat, k: nat)
    requires |ds'| == |ds|
  {
    forall i :: k <= i < |ds| ==> delta + ds'[i] == ds[i]
  }

  /** The new base time lies halfway between the last deadline passed and the next. */
  predicate TimeLeftIsElapsed(ds: seq<nat>, delta: nat) {
    var k := CountBelow(ds, delta);
    k < |ds| ==> ds[k] + Prior(ds, k) == 2 * delta
  }

  /** The k of a sorted list is its count. */
  lemma {:induction false} CountIs(ds: seq<nat>, delta: nat, k: nat)
    requires Ascending(ds) && k <= |ds|
    requires k > 0 ==> ds[k - 1] < delta
    requires k < |ds| ==> ds[k] >= delta
    ensures CountBelow(ds, delta) == k
    decreases |ds|
  {
    if ds != [] {
      var n := |ds| - 1;
      if k <= n {
        assert ds[n] >= ds[k];
        CountIs(ds[..n], delta, k);
      } else {
        if n > 0 {
          assert ds[n - 1] <= ds[n];
        }
        CountIs(ds[..n], delta, n);
      }
    }
  }

  lemma ShiftedCount(spine: seq<Node>, ds: seq<nat>, delta: nat, k: nat)
    requires Shifted(spine, ds, delta, k) && Ascending(ds)
    ensures CountBelow(ds, delta) == k
  {
    hide Ascending, CountBelow;
    CountIs(ds, delta, k);
  }

  /** Rebasing keeps the deadlines that lie ahead if and only if, before it, the next
      one and the last one passed are equally far from the new base time. */
  lemma StaysWhen(spine: seq<Node>, ds: seq<nat>, delta: nat, k: nat)
    requires Shifted(spine, ds, delta, k) && CountBelow(ds, delta) == k
    ensures AllStay(ds, Dues(spine), delta, k) <==> TimeLeftIsElapsed(ds, delta)
  {
    hide CountBelow, Dues;
    if k < |ds| {
      assert spine[k].due == NewDue(ds, delta, k, k);
    }
  }

  /** A queue with one message due at 10, rebased after 3 ticks: 3 is stored where 7
      ticks are left, so the message is due 4 ticks early. */
  method ElapsedStored() returns (q: Queue, n: Node)
    ensures q.Valid() && q.spine == [n] && q.basetime == 3
    ensures n.t == n.due == 3 && !AllStay([10], Dues(q.spine), 3, 0) && !TimeLeftIsElapsed([10], 3)
  {
    q := new Queue();
    n := new Node(1, 1, [], 1, 10);
    n.t := 10;
    var k := q.Insert(n);
    assert q.spine == [n] && Dues(q.spine) == [10] && CountBelow([10], 3) == 0;
    var _ := q.AdjustBasetime(3);
    q.HeadIsFirst();
  }

  /** The nodes not to be cancelled. */
  ghost function Kept(s: seq<Node>, dst: nat, token: seq<byte>): seq<Node> {
    if s == [] then []
    else
      var n := s[|s| - 1];
      Kept(s[..|s| - 1], dst, token) + if n.Matches(dst, token) then [] else [n]
  }

  lemma KeptNone(dst: nat, token: seq<byte>)
    ensures Kept([], dst, token) == []
  {
  }

  lemma {:induction false} KeptFirst(s: seq<Node>, dst: nat, token: seq<byte>)
    requires s != [] && s[0].Matches(dst, token)
    ensures Kept(s, dst, token) == Kept(s[1..], dst, token)
  {
    var last := |s| - 1;
    if last > 0 {
      assert s[..last][1..] == s[1..][..last - 1];
      KeptFirst(s[..last], dst, token);
    }
  }

  lemma KeptNext(s: seq<Node>, k: nat, dst: nat, token: seq<byte>)
    requires k < |s|
    ensures Kept(s[..k + 1], dst, token)
         == Kept(s[..k], dst, token) + if s[k].Matches(dst, token) then [] else [s[k]]
  {
    assert s[..k + 1][..k] == s[..k];
  }

  /** None of these goes to this peer with this token. */
  ghost predicate NoneTo(s: seq<Node>, dst: nat, token: seq<byte>) {
    forall i :: 0 <= i < |s| ==> !(s[i].remote == dst && s[i].token == token)
  }

  /** Nodes that are in both lists stand in the same order. */
  ghost predicate SameOrder(s: seq<Node>, was: seq<Node>) {
    forall i, j, x, y :: 0 <= i < j < |was| && 0 <= x < |s| && 0 <= y < |s| && s[x] == was[i] && s[y] == was[j] ==> x < y
  }

  /** What is kept, by the fields of the nodes. */
  lemma {:induction false} KeptFields(s: seq<Node>, dst: nat, token: seq<byte>)
    requires Distinct(s)
    ensures (var kept := Kept(s, dst, token);
             && (forall n :: n in kept ==> n in s)
             && (forall n :: n in s ==> (n in kept <==> !(n.remote == dst && n.token == token)))
             && SameOrder(kept, s))
  {
    if s != [] {
      var front, n := s[..|s| - 1], s[|s| - 1];
      KeptFields(front, dst, token);
      assert s == front + [n] && n !in front;
      OneMoreInOrder(Kept(front, dst, token), front, n);
    }
  }

  lemma OneMoreInOrder(kept: seq<Node>, front: seq<Node>, n: Node)
    requires SameOrder(kept, front) && n !in front && forall m :: m in kept ==> m in front
    ensures SameOrder(kept + [n], front + [n]) && SameOrder(kept, front + [n]) && kept + [] == kept
  {
  }

  /** Behind no node that goes, no time is removed. */
  lemma NothingTo(s: seq<Node>, dst: nat, token: seq<byte>)
    ensures forall i :: 0 <= i < |s| && NoneTo(s[..i], dst, token) ==> RemovedTime(s[..i], dst, token) == 0
  {
    forall i | 0 <= i < |s| && NoneTo(s[..i], dst, token) ensures RemovedTime(s[..i], dst, token) == 0 {
      NoneRemoved(s[..i], dst, token);
    }
  }

  /** Cancelling the same messages again takes out nothing more. */
  lemma {:induction false} KeptTwice(s: seq<Node>, dst: nat, token: seq<byte>)
    ensures var kept := Kept(s, dst, token);
            forall i :: 0 <= i < |kept| ==> kept[i] in s && !kept[i].Matches(dst, token)
    ensures Kept(Kept(s, dst, token), dst, token) == Kept(s, dst, token)
  {
    if s != [] {
      var front, n := s[..|s| - 1], s[|s| - 1];
      KeptTwice(front, dst, token);
      var kept := Kept(front, dst, token);
      assert s == front + [n];
      if !n.Matches(dst, token) {
        assert (kept + [n])[..|kept|] == kept;
      } else {
        assert kept + [] == kept;
      }
    }
  }

  lemma {:induction false} NoneRemoved(s: seq<Node>, dst: nat, token: seq<byte>)
    requires forall i :: 0 <= i < |s| ==> !s[i].Matches(dst, token)
    ensures RemovedTime(s, dst, token) == 0
  {
    if s != [] {
      NoneRemoved(s[..|s| - 1], dst, token);
    }
  }

  /** The times of the nodes to be cancelled. */
  ghost function RemovedTime(s: seq<Node>, dst: nat, token: seq<byte>): nat
    reads s`t
  {
    if s == [] then 0
    else
      var n := s[|s| - 1];
      RemovedTime(s[..|s| - 1], dst, token) + if n.Matches(dst, token) then n.t else 0
  }

  lemma RemovedNext(s: seq<Node>, k: nat, dst: nat, token: seq<byte>)
    requires k < |s|
    ensures RemovedTime(s[..k + 1], dst, token)
         == RemovedTime(s[..k], dst, token) + if s[k].Matches(dst, token) then s[k].t else 0
  {
    assert s[..k + 1][..k] == s[..k];
  }

  ghost function Dues(s: seq<Node>): (ds: seq<nat>)
    reads s
    ensures |ds| == |s| && forall i {:trigger ds[i]} :: 0 <= i < |s| ==> ds[i] == s[i].due
  {
    seq(|s|, i requires 0 <= i < |s| reads s => s[i].due)
  }

  function Prior(ds: seq<nat>, i: nat): nat
    requires i <= |ds|
  {
    if i == 0 then 0 else ds[i - 1]
  }

  /** The times are the distances between these deadlines. */
  ghost predicate Spaced(s: seq<Node>, ds: seq<nat>)
    reads s`t
  {
    |ds| == |s| && forall i {:trigger s[i].t} :: 0 <= i < |s| ==> s[i].t == ds[i] - Prior(ds, i)
  }

  lemma {:induction false} RemovedAtMost(s: seq<Node>, ds: seq<nat>, i: nat, dst: nat, token: seq<byte>)
    requires Spaced(s, ds) && i <= |s|
    ensures RemovedTime(s[..i], dst, token) <= Prior(ds, i)
  {
    if i > 0 {
      RemovedAtMost(s, ds, i - 1, dst, token);
      RemovedNext(s, i - 1, dst, token);
      assert s[i - 1].t == ds[i - 1] - Prior(ds, i - 1);
    }
  }

  /** Without the cancelled nodes, the times of the others add up to the deadlines
      moved up by the times removed before them. */
  lemma {:induction false} KeptTimes(s: seq<Node>, ds: seq<nat>, i: nat, dst: nat, token: seq<byte>)
    requires Spaced(s, ds) && i <= |s|
    requires forall j {:trigger s[j].due} :: 0 <= j < |s| ==>
               s[j].due == ds[j] - RemovedTime(s[..j], dst, token)
    ensures Timed(Kept(s[..i], dst, token))
    ensures var kept := Kept(s[..i], dst, token);
            Before(kept, |kept|) == Prior(ds, i) - RemovedTime(s[..i], dst, token)
  {
    if i > 0 {
      var n, kept := s[i - 1], Kept(s[..i - 1], dst, token);
      KeptTimes(s, ds, i - 1, dst, token);
      KeptNext(s, i - 1, dst, token);
      RemovedNext(s, i - 1, dst, token);
      assert n.t == ds[i - 1] - Prior(ds, i - 1);
      hide Kept, RemovedTime;
      if !n.Matches(dst, token) {
        TimedAppend(kept, n);
      } else {
        assert kept + [] == kept;
      }
    }
  }

  lemma TimedAppend(s: seq<Node>, n: Node)
    requires Timed(s) && n.t == n.due - Before(s, |s|)
    ensures Timed(s + [n])
  {
  }

  // ----- splicing

  lemma InsertLinked(s: seq<Node>, k: nat, node: Node)
    requires k <= |s| && node !in s && Distinct(s)
    requires forall i {:trigger s[i].next} :: 0 <= i < |s| ==> s[i].next == if i == k - 1 then node else At(s, i + 1)
    requires node.next == At(s, k)
    ensures Linked(if k == 0 then node else s[0], s[..k] + [node] + s[k..])
  {
  }

  lemma InsertTimed(s: seq<Node>, k: nat, node: Node)
    requires k <= |s|
    requires forall i {:trigger s[i].t} :: 0 <= i < |s| ==>
               s[i].t == s[i].due - if i == k then node.due else Before(s, i)
    requires node.t == node.due - Before(s, k)
    ensures Timed(s[..k] + [node] + s[k..])
  {
  }

  lemma RemoveLinked(s: seq<Node>, k: nat)
    requires k < |s| && Distinct(s)
    requires forall i {:trigger s[i].next} :: 0 <= i < |s| && i != k ==>
               s[i].next == At(s, if i == k - 1 then k + 1 else i + 1)
    ensures Linked(if k == 0 then At(s, 1) else s[0], s[..k] + s[k + 1..])
  {
  }

  lemma RemoveTimed(s: seq<Node>, k: nat)
    requires k < |s|
    requires forall i {:trigger s[i].t} :: 0 <= i < |s| && i != k ==>
               s[i].t == s[i].due - Before(s, if i == k + 1 then k else i)
    ensures Timed(s[..k] + s[k + 1..])
  {
  }
}
