/** Confirmable messages and their retransmission (net.c; sections 4.2 and 4.8 of
    RFC 7252), with the drain loop of the client's main function (client.c). */
module Retransmission {
  import opened Bytes
  import opened SendQueue
  import opened Observers

  const MAX_RETRANSMIT := 4
  const TICKS_PER_SECOND := 1000

  /** Codes from here on are those of responses. */
  const RESPONSE := 64

  // ----- the initial timeout

  /** Rounds to the nearest integer while shifting right by FRAC_BITS or MAX_BITS, in
      32-bit arithmetic. */
  function ShrFp(val: nat, frac: nat): nat
    requires frac == 6 || frac == 8
  {
    if frac == 6 then (val + 32) % TWO32 / 64 else (val + 128) % TWO32 / 256
  }

  /** calc_timeout in fixed point: ACK_TIMEOUT is 2 and ACK_RANDOM_FACTOR 1.5, with
      6 fractional bits; `r` is a random fraction of 8 bits. */
  function CalcTimeout(r: byte, ticksPerSecond: nat): nat {
    var inner := ShrFp((96 - 64) * r, 8);
    var scaled := ShrFp((inner + 64) * 128, 6);
    ShrFp(ticksPerSecond * scaled % TWO32, 6)
  }

  /** The factor that the random byte makes, in 64ths. */
  lemma Factor(r: byte)
    ensures (var inner := ShrFp((96 - 64) * r, 8);
             var scaled := ShrFp((inner + 64) * 128, 6);
             && scaled == 2 * ((32 * r + 128) / 256 + 64) && 128 <= scaled <= 192
             && (r == 0 ==> scaled == 128) && (r == 255 ==> scaled == 192))
  {
    var k := (32 * r + 128) / 256;
    assert ShrFp((96 - 64) * r, 8) == k <= 32;
    RoundedDouble(k + 64);
  }

  lemma RoundedDouble(k: nat)
    requires k <= 96
    ensures ShrFp(k * 128, 6) == 2 * k
  {
    assert k * 128 + 32 == 64 * (2 * k) + 32;
    DivisionUnique(k * 128 + 32, 64, 2 * k, 32);
  }

  lemma TimeoutOf(r: byte, ticksPerSecond: nat)
    ensures CalcTimeout(r, ticksPerSecond)
         == (ticksPerSecond * (2 * ((32 * r + 128) / 256 + 64)) % TWO32 + 32) % TWO32 / 64
  {
    Factor(r);
  }

  /** With a tick rate whose product stays within 32 bits, the timeout lies between 2
      and 3 seconds for every random byte, and both are reached. */
  lemma TimeoutBounds(r: byte, ticksPerSecond: nat)
    requires 192 * ticksPerSecond + 32 < TWO32
    ensures 2 * ticksPerSecond <= CalcTimeout(r, ticksPerSecond) <= 3 * ticksPerSecond
    ensures r == 0 ==> CalcTimeout(r, ticksPerSecond) == 2 * ticksPerSecond
    ensures r == 255 ==> CalcTimeout(r, ticksPerSecond) == 3 * ticksPerSecond
  {
    TimeoutOf(r, ticksPerSecond);
    Factor(r);
    hide CalcTimeout, ShrFp;
    var scaled := 2 * ((32 * r + 128) / 256 + 64);
    MulMonotone(ticksPerSecond, 128, scaled);
    MulMonotone(ticksPerSecond, scaled, 192);
    Unwrapped(ticksPerSecond * scaled);
  }

  /** In between it follows the random byte: 2 + r/256 seconds, up to a 64th of a second
      and half a tick. */
  lemma TimeoutNear(r: byte, ticksPerSecond: nat)
    requires 192 * ticksPerSecond + 32 < TWO32
    ensures (var exact := ticksPerSecond * (512 + r);
             exact - 4 * ticksPerSecond - 128 <= 256 * CalcTimeout(r, ticksPerSecond) <= exact + 4 * ticksPerSecond + 128)
  {
    TimeoutOf(r, ticksPerSecond);
    Factor(r);
    hide CalcTimeout, ShrFp;
    var k := (32 * r + 128) / 256;
    MulMonotone(ticksPerSecond, 2 * (k + 64), 192);
    Unwrapped(ticksPerSecond * (2 * (k + 64)));
    MulMonotone(ticksPerSecond, 8 * k - 4, r);
    MulMonotone(ticksPerSecond, r, 8 * k + 4);
    Rounded(ticksPerSecond * (2 * (k + 64)));
    Spread(ticksPerSecond, k, r);
  }

  lemma Rounded(product: nat)
    ensures product - 32 <= 64 * ((product + 32) / 64) <= product + 32
  {
  }

  lemma Spread(t: nat, k: nat, r: nat)
    ensures 4 * (t * (2 * (k + 64))) == t * 512 + t * (8 * k)
    ensures t * (512 + r) == t * 512 + t * r
    ensures t * (8 * k - 4) == t * (8 * k) - 4 * t && t * (8 * k + 4) == t * (8 * k) + 4 * t
  {
  }

  lemma Unwrapped(product: nat)
    requires product + 32 < TWO32
    ensures (product % TWO32 + 32) % TWO32 / 64 == (product + 32) / 64
  {
  }

  /** Any faster clock gets a timeout of less than 2 seconds for some random byte. */
  lemma TimeoutWraps(ticksPerSecond: nat)
    requires 192 * ticksPerSecond + 32 >= TWO32
    ensures CalcTimeout(255, ticksPerSecond) < 2 * ticksPerSecond
  {
    hide CalcTimeout, ShrFp;
    TimeoutOf(255, ticksPerSecond);
    WrapsBelow(ticksPerSecond);
  }

  lemma WrapsBelow(t: nat)
    requires 192 * t + 32 >= TWO32
    ensures (t * 192 % TWO32 + 32) % TWO32 / 64 < 2 * t
  {
    SumWraps(t * 192, 32);
    Wrapped((t * 192 + 32) / TWO32, (t * 192 + 32) % TWO32, t);
  }

  lemma SumWraps(a: nat, b: nat)
    ensures (a % TWO32 + b) % TWO32 == (a + b) % TWO32
  {
    assert a % TWO32 + b == (a + b) - (a / TWO32) * TWO32;
  }

  lemma Wrapped(q: nat, v: nat, t: nat)
    requires 192 * t + 32 == q * TWO32 + v && q >= 1 && v < TWO32
    ensures v / 64 < 2 * t
  {
    assert v < 128 * t;
  }

  /** The range of section 4.8 holds for exactly these tick rates. */
  lemma TimeoutExactly(ticksPerSecond: nat)
    ensures (forall r: byte :: 2 * ticksPerSecond <= CalcTimeout(r, ticksPerSecond) <= 3 * ticksPerSecond)
       <==> 192 * ticksPerSecond + 32 < TWO32
  {
    hide CalcTimeout;
    if 192 * ticksPerSecond + 32 < TWO32 {
      forall r: byte ensures 2 * ticksPerSecond <= CalcTimeout(r, ticksPerSecond) <= 3 * ticksPerSecond {
        TimeoutBounds(r, ticksPerSecond);
      }
    } else {
      TimeoutWraps(ticksPerSecond);
      assert !(2 * ticksPerSecond <= CalcTimeout(255, ticksPerSecond));
    }
  }

  // ----- sending and retransmitting

  /** A message in the queue has gone out once more than it was retransmitted. */
  ghost predicate Live(n: Node)
    reads n`retransmitCnt, n`sent
  {
    n.retransmitCnt <= MAX_RETRANSMIT && n.sent == 1 + n.retransmitCnt
  }

  /** coap_send_confirmed; `sendOk` tells whether the datagram could be sent. */
  method SendConfirmed(q: Queue, node: Node, now: int, r: byte, sendOk: bool) returns (queued: bool)
    requires q.Valid() && node !in q.spine && node.next == null && node.sent == node.retransmitCnt == 0
    requires q.head != null ==> q.basetime <= now
    modifies q`head, q`spine, q`basetime, q.spine`next, q.spine`t, node
    ensures q.Valid() && queued == sendOk
    ensures !queued ==> q.spine == old(q.spine) && q.basetime == old(q.basetime)
    ensures queued ==>
              && Live(node) && node.retransmitCnt == 0 && node.timeout == CalcTimeout(r, TICKS_PER_SECOND)
              && q.basetime + node.due == now + node.timeout
              && 2 * TICKS_PER_SECOND <= node.timeout <= 3 * TICKS_PER_SECOND
              && q.basetime == (if old(q.spine) == [] then now else old(q.basetime))
              && exists k | 0 <= k <= |old(q.spine)| :: q.spine == old(q.spine)[..k] + [node] + old(q.spine)[k..]
  {
    if !sendOk { return false; }
    q.HeadIsFirst();
    node.sent := 1;
    node.timeout := CalcTimeout(r, TICKS_PER_SECOND);
    TimeoutBounds(r, TICKS_PER_SECOND);
    if q.head == null {
      node.t := node.timeout;
      q.basetime := now;
    } else {
      node.t := now - q.basetime + node.timeout;
    }
    var k := q.Insert(node);
    queued := true;
  }

  /** coap_retransmit: the k-th retransmission is due timeout * 2^k after the base time
      of the queue, which the client's loop does not move on; the node leaves the
      system after the fourth. If it was a notification, its observer has failed once
      more, and may be dropped with all messages to it. */
  method Retransmit(q: Queue, node: Node, obs: Registry) returns (again: bool)
    requires q.Valid() && node !in q.spine && node.next == null && node.retransmitCnt <= MAX_RETRANSMIT
    modifies q`head, q`spine, q.spine`next, q.spine`t, q.spine`due, node, obs
    ensures q.Valid() && again == (old(node.retransmitCnt) < MAX_RETRANSMIT) && node.timeout == old(node.timeout)
    ensures again || node.code < RESPONSE ==>
              obs.lists == old(obs.lists) && forall i :: 0 <= i < |old(q.spine)| ==> old(q.spine)[i].due == old(q.spine[i].due)
    ensures !again ==>
              && node.sent == old(node.sent) && node.retransmitCnt == old(node.retransmitCnt)
              && if node.code < 64 then q.spine == old(q.spine)
                 else && |obs.lists| == |old(obs.lists)|
                      && (forall i :: 0 <= i < |obs.lists| ==>
                            obs.lists[i] == AfterFailure(old(obs.lists)[i], node.remote, node.token))
                      && Cancelled(q.spine, old(q.spine), node.remote, node.token,
                                   SomeDrop(old(obs.lists), node.remote, node.token))
                      && (forall n :: n in old(q.spine) ==>
                            (n in q.spine <==> !(&& SomeDrop(old(obs.lists), node.remote, node.token)
                                                 && n.remote == node.remote && n.token == node.token)))
    ensures again ==>
              && node.retransmitCnt == old(node.retransmitCnt) + 1 && node.sent == old(node.sent) + 1
              && node.due == node.timeout * Pow2(node.retransmitCnt)
              && exists k | 0 <= k <= |old(q.spine)| :: q.spine == old(q.spine)[..k] + [node] + old(q.spine)[k..]
  {
    hide Linked, Timed, Kept, AfterFailure, Drops, SomeDrop, SameOrder;
    if node.retransmitCnt < MAX_RETRANSMIT {
      node.retransmitCnt := node.retransmitCnt + 1;
      node.t := node.timeout * Pow2(node.retransmitCnt);
      var k := q.Insert(node);
      node.sent := node.sent + 1;
      return true;
    }
    if node.code >= RESPONSE {
      ghost var some := obs.HandleFailedNotify(q, node.remote, node.token);
    }
    again := false;
  }

  // ----- draining the queue

  datatype Fate = Waits(due: nat, cnt: nat) | GivenUp

  /** What becomes of a message when the queue is drained after `elapsed` ticks: it
      goes out again until its next deadline lies ahead, or is given up. */
  function FateOf(due: nat, timeout: nat, cnt: nat, elapsed: int): Fate
    decreases MAX_RETRANSMIT - cnt
  {
    if due > elapsed then Waits(due, cnt)
    else if cnt >= MAX_RETRANSMIT then GivenUp
    else FateOf(timeout * Pow2(cnt + 1), timeout, cnt + 1, elapsed)
  }

  /** Section 4.2 of RFC 7252 has a message wait twice as long after each retransmission,
      here timeout * 2^(cnt + 1). The code counts that from the base time, so all of it
      is left only in a drain at the base time itself, and at most half of it exactly
      when timeout * 2^cnt ticks have passed since. */
  lemma WaitLeft(due: nat, timeout: nat, cnt: nat, elapsed: nat)
    requires cnt < MAX_RETRANSMIT && due <= elapsed
    ensures (var wait := timeout * Pow2(cnt + 1);
             && (wait - elapsed == wait <==> elapsed == 0)
             && (2 * (wait - elapsed) <= wait <==> timeout * Pow2(cnt) <= elapsed)
             && (2 * (wait - elapsed) == wait <==> timeout * Pow2(cnt) == elapsed)
             && (FateOf(due, timeout, cnt, elapsed) == Waits(wait, cnt + 1) <==> elapsed < wait))
  {
    ShiftTwice(timeout, cnt, 1);
    assert Pow2(1) == 2;
  }

  /** A deadline that has not been moved up. */
  predicate OnSchedule(due: nat, timeout: nat, cnt: nat) {
    timeout * Pow2(cnt) <= due
  }

  /** Whoever is on schedule stays so, and has at most half of the wait left after a
      retransmission. */
  lemma {:induction false} ScheduleKept(due: nat, timeout: nat, cnt: nat, elapsed: int)
    requires cnt <= MAX_RETRANSMIT && OnSchedule(due, timeout, cnt)
    ensures match FateOf(due, timeout, cnt, elapsed)
            case Waits(d, c) => OnSchedule(d, timeout, c) && c >= cnt && (c > cnt ==> 2 * (d - elapsed) <= d)
            case GivenUp => true
    decreases MAX_RETRANSMIT - cnt
  {
    if due <= elapsed && cnt < MAX_RETRANSMIT {
      ShiftTwice(timeout, cnt, 1);
      assert Pow2(1) == 2;
      hide Pow2;
      ScheduleKept(timeout * Pow2(cnt + 1), timeout, cnt + 1, elapsed);
    }
  }

  /** A message that is due is given up within a single drain, all its retransmissions
      sent at once, exactly when the drain comes timeout * 16 or more after the base
      time. */
  lemma {:induction false} AllAtOnce(due: nat, timeout: nat, cnt: nat, elapsed: nat)
    requires due <= elapsed && cnt <= MAX_RETRANSMIT
    ensures FateOf(due, timeout, cnt, elapsed) == GivenUp
       <==> cnt == MAX_RETRANSMIT || timeout * Pow2(MAX_RETRANSMIT) <= elapsed
    decreases MAX_RETRANSMIT - cnt
  {
    if cnt < MAX_RETRANSMIT {
      var next := timeout * Pow2(cnt + 1);
      Pow2Monotone(cnt + 1, MAX_RETRANSMIT);
      MulMonotone(timeout, Pow2(cnt + 1), Pow2(MAX_RETRANSMIT));
      if next <= elapsed {
        AllAtOnce(next, timeout, cnt + 1, elapsed);
      }
    }
  }

  /** Transmissions left to the messages of the queue, one more each for giving up. */
  ghost function Work(s: seq<Node>): nat
    requires forall n :: n in s ==> n.retransmitCnt <= MAX_RETRANSMIT
    reads s`retransmitCnt
  {
    if s == [] then 0 else (5 - s[0].retransmitCnt) + Work(s[1..])
  }

  lemma WorkFirst(s: seq<Node>)
    requires s != [] && forall m :: m in s ==> m.retransmitCnt <= MAX_RETRANSMIT
    ensures forall m :: m in s[1..] ==> m in s
    ensures Work(s) == (5 - s[0].retransmitCnt) + Work(s[1..])
  {
  }

  lemma {:induction false} WorkInsert(s: seq<Node>, k: nat, n: Node)
    requires k <= |s| && forall m :: m in s + [n] ==> m.retransmitCnt <= MAX_RETRANSMIT
    ensures forall m :: m in s[..k] + [n] + s[k..] ==> m.retransmitCnt <= MAX_RETRANSMIT
    ensures Work(s[..k] + [n] + s[k..]) == (5 - n.retransmitCnt) + Work(s)
  {
    if k == 0 {
      assert s[..0] + [n] + s[0..] == [n] + s;
    } else {
      var s' := s[..k] + [n] + s[k..];
      assert s'[1..] == s[1..][..k - 1] + [n] + s[1..][k - 1..];
      WorkInsert(s[1..], k - 1, n);
    }
  }

  function NodesOf(s: seq<Node>): set<Node> {
    set i | 0 <= i < |s| :: s[i]
  }

  lemma NodesOfTail(s: seq<Node>)
    requires Distinct(s) && s != []
    ensures NodesOf(s[1..]) == NodesOf(s) - {s[0]}
  {
  }

  lemma NodesOfInsert(s: seq<Node>, k: nat, n: Node)
    requires k <= |s|
    ensures NodesOf(s[..k] + [n] + s[k..]) == NodesOf(s) + {n}
  {
    var s' := s[..k] + [n] + s[k..];
    forall m | m in NodesOf(s) ensures m in NodesOf(s') {
      var i :| 0 <= i < |s| && s[i] == m;
      assert s'[if i < k then i else i + 1] == m;
    }
    assert s'[k] == n;
    forall i | 0 <= i < |s'| ensures s'[i] in NodesOf(s) + {n} {
      if i < k { assert s'[i] == s[i]; } else if i > k { assert s'[i] == s[i - 1]; }
    }
  }

  lemma NodesOfKept(s: seq<Node>, remote: nat, token: seq<byte>)
    ensures NodesOf(Kept(s, remote, token)) <= NodesOf(s)
    ensures forall n :: n in NodesOf(s) ==> n in NodesOf(Kept(s, remote, token)) || n.Matches(remote, token)
  {
    KeptTwice(s, remote, token);
    KeptAll(s, remote, token);
  }

  lemma {:induction false} KeptAll(s: seq<Node>, remote: nat, token: seq<byte>)
    ensures forall i :: 0 <= i < |s| && !s[i].Matches(remote, token) ==> s[i] in Kept(s, remote, token)
  {
    if s != [] {
      KeptAll(s[..|s| - 1], remote, token);
    }
  }

  lemma {:induction false} WorkKept(s: seq<Node>, remote: nat, token: seq<byte>)
    requires forall m :: m in s ==> m.retransmitCnt <= MAX_RETRANSMIT
    ensures forall m :: m in Kept(s, remote, token) ==> m.retransmitCnt <= MAX_RETRANSMIT
    ensures Work(Kept(s, remote, token)) <= Work(s)
  {
    hide Work;
    if s != [] {
      var front, n := s[..|s| - 1], s[|s| - 1];
      var kept := Kept(front, remote, token);
      assert s == front + [n];
      WorkKept(front, remote, token);
      WorkAppend(front, n);
      WorkAppend(kept, n);
      assert kept + [] == kept;
    }
  }

  lemma WorkAppend(s: seq<Node>, n: Node)
    requires forall m :: m in s + [n] ==> m.retransmitCnt <= MAX_RETRANSMIT
    ensures forall m :: m in s ==> m.retransmitCnt <= MAX_RETRANSMIT
    ensures Work(s + [n]) == (5 - n.retransmitCnt) + Work(s)
  {
    hide Work;
    assert forall m :: m in s ==> m in s + [n];
    WorkInsert(s, |s|, n);
    assert s[..|s|] + [n] + s[|s|..] == s + [n];
  }

  /** What is left when others go with a node given up. */
  lemma LeftBehind(spine: seq<Node>, tail: seq<Node>, n: Node)
    requires spine == tail || spine == Kept(tail, n.remote, n.token)
    requires forall m :: m in tail ==> m.retransmitCnt <= MAX_RETRANSMIT
    ensures forall m :: m in spine ==> m.retransmitCnt <= MAX_RETRANSMIT
    ensures Work(spine) <= Work(tail) && NodesOf(spine) <= NodesOf(tail)
    ensures forall m :: m in NodesOf(tail) ==> m in NodesOf(spine) || m.Matches(n.remote, n.token)
  {
    WorkKept(tail, n.remote, n.token);
    NodesOfKept(tail, n.remote, n.token);
  }

  /** One turn of the drain loop: the first message goes out again or is dropped; if it
      was a notification, others to the same observer may go with it. */
  method DrainStep(q: Queue, obs: Registry) returns (ghost n: Node)
    requires q.Valid() && q.head != null && forall m :: m in q.spine ==> m.retransmitCnt <= MAX_RETRANSMIT
    modifies q`head, q`spine, q.spine`next, q.spine`t, q.spine`due, q.head, obs
    ensures q.Valid() && n == old(q.head) && n in NodesOf(old(q.spine)) && n.timeout == old(n.timeout)
    ensures forall m :: m in q.spine ==> m.retransmitCnt <= MAX_RETRANSMIT
    ensures Work(q.spine) < old(Work(q.spine))
    ensures old(n.retransmitCnt) < MAX_RETRANSMIT || n.code < RESPONSE ==>
              forall m :: m in NodesOf(old(q.spine)) && m != n ==> m.due == old(m.due)
    ensures if old(n.retransmitCnt) < MAX_RETRANSMIT then
              && NodesOf(q.spine) == NodesOf(old(q.spine))
              && n.retransmitCnt == old(n.retransmitCnt) + 1 && n.sent == old(n.sent) + 1
              && n.due == n.timeout * Pow2(n.retransmitCnt)
            else
              && Leave(NodesOf(q.spine), NodesOf(old(q.spine)), n)
              && n.retransmitCnt == old(n.retransmitCnt) && n.sent == old(n.sent)
  {
    hide NodesOf, Linked, Timed, Pow2, Work, Drops, AfterFailure, Kept, SomeDrop, SameOrder;
    ghost var s := q.spine;
    q.HeadIsFirst();
    NodesOfTail(s);
    NodesHave(s, 0);
    WorkFirst(s);
    var node := q.Pop();
    n := node;
    ghost var tail := q.spine;
    assert tail == s[1..];
    assert Work(s) == old(Work(q.spine));
    InNodes(s);
    InNodes(tail);
    var again := Retransmit(q, node, obs);
    if again {
      ghost var k :| 0 <= k <= |tail| && q.spine == tail[..k] + [node] + tail[k..];
      WorkInsert(tail, k, node);
      NodesOfInsert(tail, k, node);
    } else {
      LeftBehind(q.spine, tail, n);
    }
  }

  /** The node has left the queue, along with nodes that match it if it was a notification. */
  ghost predicate Leave(queued: set<Node>, was: set<Node>, n: Node) {
    && queued <= was - {n}
    && (forall m :: m in was - {n} ==> m in queued || (n.code >= RESPONSE && m.Matches(n.remote, n.token)))
  }

  lemma NodesHave(s: seq<Node>, i: nat)
    requires i < |s|
    ensures s[i] in NodesOf(s)
  {
  }

  ghost function Fates(s: seq<Node>, elapsed: int): (f: map<Node, Fate>)
    reads s
    ensures f.Keys == NodesOf(s)
  {
    map n | n in NodesOf(s) :: FateOf(n.due, n.timeout, n.retransmitCnt, elapsed)
  }

  /** A message that has met its fate; `queued` tells whether it is in the queue. */
  ghost predicate Met(n: Node, fate: Fate, queued: bool)
    reads n`due, n`retransmitCnt, n`sent
  {
    match fate
    case Waits(due, cnt) => queued && n.due == due && n.retransmitCnt == cnt && n.sent == 1 + cnt
    case GivenUp => !queued && n.sent == 1 + MAX_RETRANSMIT
  }

  /** The fields of a node. */
  datatype Fields = Fields(due: nat, timeout: nat, cnt: nat, sent: nat)

  ghost function FieldsOf(nodes: set<Node>): (v: map<Node, Fields>)
    reads nodes
    ensures v.Keys == nodes
  {
    map n | n in nodes :: Fields(n.due, n.timeout, n.retransmitCnt, n.sent)
  }

  /** None of these is a notification; the client's messages are requests. */
  ghost predicate Requests(nodes: set<Node>) {
    forall n :: n in nodes ==> n.code < RESPONSE
  }

  /** One of the notifications given up went to the same observer. */
  ghost predicate WithNotification(n: Node, up: set<Node>) {
    exists m :: m in up && m.code >= RESPONSE && n.Matches(m.remote, m.token)
  }

  /** Where the messages that a drain started with have got to: each is still queued,
      given up after five transmissions, or cancelled along with a notification given up. */
  ghost predicate InAccount(queued: set<Node>, start: set<Node>, up: set<Node>, v: map<Node, Fields>)
    requires v.Keys == start
  {
    && queued <= start - up
    && (forall n :: n in queued ==> v[n].cnt <= MAX_RETRANSMIT && v[n].sent == 1 + v[n].cnt)
    && (forall n :: n in start ==> 1 <= v[n].sent <= 1 + MAX_RETRANSMIT)
    && (forall n :: n in up ==> n in start && v[n].sent == 1 + MAX_RETRANSMIT)
    && (forall n :: n in start ==> n in queued || n in up || WithNotification(n, up))
  }

  ghost predicate Draining(q: Queue, start: set<Node>, up: set<Node>)
    reads q, q.spine, start
  {
    q.Valid() && InAccount(NodesOf(q.spine), start, up, FieldsOf(start))
  }

  /** Every message is on the way to its fate, those in the queue still before it. */
  ghost predicate Underway(queued: set<Node>, fates: map<Node, Fate>, elapsed: int, v: map<Node, Fields>)
    requires v.Keys == fates.Keys
  {
    && queued <= fates.Keys
    && forall n :: n in fates ==>
         if n in queued then
           v[n].cnt <= MAX_RETRANSMIT && v[n].sent == 1 + v[n].cnt
           && FateOf(v[n].due, v[n].timeout, v[n].cnt, elapsed) == fates[n]
         else fates[n] == GivenUp && v[n].sent == 1 + MAX_RETRANSMIT
  }

  ghost predicate Tracking(q: Queue, fates: map<Node, Fate>, elapsed: int)
    reads q, q.spine, fates.Keys
  {
    q.Valid() && Underway(NodesOf(q.spine), fates, elapsed, FieldsOf(fates.Keys))
  }

  /** The drain loop of the client's main function. It ends; what is queued then lies
      ahead and can be drained again. Among requests every message has met its fate:
      sent once for each deadline that had passed and queued for the next one, or given
      up after the fourth retransmission. */
  method Drain(q: Queue, obs: Registry, now: int) returns (ghost up: set<Node>)
    requires q.Valid() && q.basetime <= now
    requires forall n :: n in q.spine ==> Live(n)
    modifies q`head, q`spine, q.spine, obs
    ensures Draining(q, NodesOf(old(q.spine)), up)
    ensures WhereTo(q.spine, NodesOf(old(q.spine)), up)
    ensures forall n :: n in q.spine ==> n.due > now - q.basetime && Live(n)
    ensures forall n :: n in NodesOf(old(q.spine)) ==> n.timeout == old(n.timeout)
    ensures var fates := old(Fates(q.spine, now - q.basetime));
            Requests(NodesOf(old(q.spine))) ==> forall n :: n in fates ==> Met(n, fates[n], n in NodesOf(q.spine))
  {
    hide NodesOf, Fates, Live, Met, Work, Queue.Valid, Draining, Tracking, Requests;
    var elapsed := now - q.basetime;
    ghost var start, fates := NodesOf(q.spine), Fates(q.spine, elapsed);
    up := {};
    AtStart(q, elapsed);
    LiveCount(q.spine);
    InNodes(q.spine);
    while q.head != null && q.head.t <= elapsed
      invariant Draining(q, start, up) && q.basetime == old(q.basetime)
      invariant Requests(start) ==> Tracking(q, fates, elapsed)
      invariant forall n :: n in start ==> n.timeout == old(n.timeout)
      invariant forall n :: n in q.spine ==> n.retransmitCnt <= MAX_RETRANSMIT
      decreases Work(q.spine)
    {
      up := DrainOne(q, obs, elapsed, start, up, fates);
    }
    StillLive(q, start, up);
    AllAhead(q, elapsed);
    InNodes(q.spine);
    AllSomewhere(q, start, up);
    if Requests(start) {
      AllMet(q, fates, elapsed);
    }
  }

  lemma AtStart(q: Queue, elapsed: int)
    requires q.Valid() && forall n :: n in q.spine ==> Live(n)
    ensures Draining(q, NodesOf(q.spine), {}) && Tracking(q, Fates(q.spine, elapsed), elapsed)
  {
    hide NodesOf, Queue.Valid;
    InNodes(q.spine);
  }

  lemma StillLive(q: Queue, start: set<Node>, up: set<Node>)
    requires Draining(q, start, up)
    ensures q.Valid() && NodesOf(q.spine) <= start
    ensures forall n :: n in q.spine ==> Live(n)
    ensures forall n :: n in start ==> 1 <= n.sent <= 1 + MAX_RETRANSMIT
  {
    hide NodesOf, Queue.Valid;
    InNodes(q.spine);
    var v := FieldsOf(start);
    assert forall n :: n in start ==> v[n].sent == n.sent && v[n].cnt == n.retransmitCnt;
  }

  /** A message is queued, was given up after five transmissions, or was to the peer and
      with the token of a notification given up. */
  ghost predicate WhereTo(spine: seq<Node>, start: set<Node>, up: set<Node>)
    reads start
  {
    forall n :: n in start ==>
      || n in spine || (n in up && n.sent == 5)
      || exists m :: m in up && m.code >= 64 && m.remote == n.remote && m.token == n.token
  }

  lemma AllSomewhere(q: Queue, start: set<Node>, up: set<Node>)
    requires Draining(q, start, up)
    ensures WhereTo(q.spine, start, up)
  {
    hide NodesOf, Queue.Valid;
    InNodes(q.spine);
    var v := FieldsOf(start);
    assert forall n :: n in start ==> v[n].sent == n.sent;
  }

  lemma AllMet(q: Queue, fates: map<Node, Fate>, elapsed: int)
    requires Tracking(q, fates, elapsed) && forall n :: n in q.spine ==> n.due > elapsed
    ensures forall n :: n in fates ==> Met(n, fates[n], n in NodesOf(q.spine))
  {
    hide NodesOf, Queue.Valid;
    InNodes(q.spine);
    var v := FieldsOf(fates.Keys);
    assert forall n :: n in fates ==> v[n] == Fields(n.due, n.timeout, n.retransmitCnt, n.sent);
  }

  /** One turn of the drain loop keeps everyone accounted for, and on the way. */
  method DrainOne(q: Queue, obs: Registry, elapsed: int, ghost start: set<Node>, ghost up: set<Node>,
                  ghost fates: map<Node, Fate>)
    returns (ghost up': set<Node>)
    requires Draining(q, start, up) && q.head != null && q.head.t <= elapsed
    requires fates.Keys == start && (Requests(start) ==> Tracking(q, fates, elapsed))
    requires forall n :: n in q.spine ==> n.retransmitCnt <= MAX_RETRANSMIT
    modifies q`head, q`spine, start, obs
    ensures Draining(q, start, up') && (Requests(start) ==> Tracking(q, fates, elapsed))
    ensures forall n :: n in q.spine ==> n.retransmitCnt <= MAX_RETRANSMIT
    ensures Work(q.spine) < old(Work(q.spine))
    ensures forall n :: n in start ==> n.timeout == old(n.timeout)
  {
    hide NodesOf, InAccount, Underway, Leave, Work, Queue.Valid, Pow2;
    ghost var n, was, v := q.head, NodesOf(q.spine), FieldsOf(start);
    InStart(q, start, up);
    var _ := DrainStep(q, obs);
    ghost var queued, v' := NodesOf(q.spine), FieldsOf(start);
    up' := if n in queued then up else up + {n};
    assert OnlyFirst(start, n, v, v') && Turn(queued, was, n, v[n], v'[n]);
    AllAccounted(queued, was, start, up, up', n, v, v');
    if Requests(start) {
      AllUnderway(queued, was, n, fates, elapsed, v, v');
    }
  }

  lemma InStart(q: Queue, start: set<Node>, up: set<Node>)
    requires Draining(q, start, up)
    ensures q.Valid() && (forall n :: n in q.spine ==> n in start)
    ensures q.head != null ==> q.head in start && q.head.t == q.head.due
  {
    hide NodesOf;
    q.HeadIsFirst();
    InNodes(q.spine);
  }

  /** Only the first node, n, is sent or given up in a turn. */
  ghost predicate OnlyFirst(start: set<Node>, n: Node, v: map<Node, Fields>, v': map<Node, Fields>)
    requires v.Keys == v'.Keys == start
  {
    forall m :: m in start && m != n ==> v'[m] == v[m].(due := v'[m].due)
  }

  /** The turn of the first node n. */
  ghost predicate Turn(queued: set<Node>, was: set<Node>, n: Node, a: Fields, b: Fields) {
    && n in was && b.timeout == a.timeout
    && if a.cnt < MAX_RETRANSMIT then
         queued == was && b.cnt == a.cnt + 1 && b.sent == a.sent + 1 && b.due == b.timeout * Pow2(b.cnt)
       else
         Leave(queued, was, n) && b.cnt == a.cnt && b.sent == a.sent
  }

  lemma AllAccounted(queued: set<Node>, was: set<Node>, start: set<Node>, up: set<Node>, up': set<Node>, n: Node,
                     v: map<Node, Fields>, v': map<Node, Fields>)
    requires v.Keys == v'.Keys == start && n in start && InAccount(was, start, up, v)
    requires OnlyFirst(start, n, v, v') && Turn(queued, was, n, v[n], v'[n])
    requires up' == if n in queued then up else up + {n}
    ensures InAccount(queued, start, up', v')
  {
    hide WithNotification, Pow2;
    NotedMore(queued, was, n, start, up, up');
  }

  lemma AllUnderway(queued: set<Node>, was: set<Node>, n: Node, fates: map<Node, Fate>, elapsed: int,
                    v: map<Node, Fields>, v': map<Node, Fields>)
    requires v.Keys == v'.Keys == fates.Keys && n in fates && Underway(was, fates, elapsed, v) && Requests(fates.Keys)
    requires OnlyFirst(fates.Keys, n, v, v') && Turn(queued, was, n, v[n], v'[n])
    requires v[n].due <= elapsed && forall m :: m in was && m != n ==> v'[m].due == v[m].due
    ensures Underway(queued, fates, elapsed, v')
  {
    hide Leave, Pow2;
    LeaveMeans(queued, was, n);
  }

  lemma LeaveMeans(queued: set<Node>, was: set<Node>, n: Node)
    ensures Leave(queued, was, n) ==> queued <= was - {n} && (n.code < RESPONSE ==> queued == was - {n})
  {
  }

  /** Whoever was accounted for still is, and so is whoever left in this turn. */
  lemma NotedMore(queued: set<Node>, was: set<Node>, n: Node, start: set<Node>, up: set<Node>, up': set<Node>)
    requires forall m :: m in start ==> m in was || m in up || WithNotification(m, up)
    requires if n in queued then queued == was && up' == up else Leave(queued, was, n) && up' == up + {n}
    ensures forall m :: m in start ==> m in queued || m in up' || WithNotification(m, up')
  {
    forall m | m in start ensures m in queued || m in up' || WithNotification(m, up') {
      if WithNotification(m, up) {
        var k :| k in up && k.code >= RESPONSE && m.Matches(k.remote, k.token);
        assert k in up';
      }
    }
  }

  lemma LiveCount(s: seq<Node>)
    requires forall n :: n in s ==> Live(n)
    ensures forall n :: n in s ==> n.retransmitCnt <= MAX_RETRANSMIT
  {
  }

  lemma InNodes(s: seq<Node>)
    ensures forall n :: n in s ==> n in NodesOf(s)
    ensures forall n :: n in NodesOf(s) ==> n in s
  {
  }

  /** Deadlines are in order, so the first one ahead puts all of them ahead. */
  lemma AllAhead(q: Queue, elapsed: int)
    requires q.Valid() && (q.head != null ==> q.head.t > elapsed)
    ensures forall n :: n in q.spine ==> n.due > elapsed
  {
    q.HeadIsFirst();
    forall i | 0 <= i < |q.spine| ensures q.spine[i].due > elapsed {
      q.Ordered(0, i);
    }
  }

  // ----- whole runs

  /** What happens to the queue: a message is sent, the due ones are drained, an answer
      or a reset takes one out, all messages of a token are cancelled, the base time is
      moved on, or observers come and go. */
  datatype Event =
    | Send(id: int, remote: nat, token: seq<byte>, code: byte, at: int, r: byte, sendOk: bool)
    | DrainDue(at: int)
    | Answer(id: int)
    | Cancel(remote: nat, token: seq<byte>)
    | Rebase(at: int)
    | Observe(lists: seq<seq<Subscription>>)

  /** The clock after the event. */
  function Clock(e: Event, now: int): int {
    match e
    case Send(_, _, _, _, at, _, _) => at
    case DrainDue(at) => at
    case Rebase(at) => at
    case _ => now
  }

  /** The clock does not go back. */
  predicate InOrder(events: seq<Event>, now: int) {
    events == [] || (now <= Clock(events[0], now) && InOrder(events[1..], Clock(events[0], now)))
  }

  /** An event after which every deadline is still where the timeouts put it: a request,
      a drain, an answer, or a change of observers. */
  predicate Steady(e: Event) {
    match e
    case Send(_, _, _, code, _, _, _) => code < RESPONSE
    case Cancel(_, _) => false
    case Rebase(_) => false
    case _ => true
  }

  /** How often a message has gone out, whether it is still queued or not, and the
      timeout its deadlines are made of. */
  ghost predicate WithinBounds(n: Node)
    reads n`sent, n`timeout
  {
    && 1 <= n.sent <= 1 + MAX_RETRANSMIT
    && 2 * TICKS_PER_SECOND <= n.timeout <= 3 * TICKS_PER_SECOND
  }

  /** `all` are the messages ever sent. */
  ghost predicate Accounted(q: Queue, all: set<Node>, now: int)
    reads q, q.spine, all
  {
    && q.Valid() && q.basetime <= now
    && (forall n :: n in q.spine ==> n in all && Live(n))
    && (forall n :: n in all ==> WithinBounds(n))
  }

  /** All messages queued are requests with the deadlines their timeouts give. */
  ghost predicate Scheduled(spine: seq<Node>)
    reads spine`due, spine`timeout, spine`retransmitCnt
  {
    forall n :: n in spine ==> n.code < RESPONSE && OnSchedule(n.due, n.timeout, n.retransmitCnt)
  }

  method HappenSend(q: Queue, node: Node, at: int, r: byte, sendOk: bool, ghost all: set<Node>, ghost now: int)
    returns (ghost all': set<Node>)
    requires Accounted(q, all, now) && now <= at
    requires node !in all && node.next == null && node.sent == node.retransmitCnt == 0
    modifies q, q.spine`next, q.spine`t, node
    ensures Accounted(q, all', at) && all' == if sendOk then all + {node} else all
    ensures old(Scheduled(q.spine)) && node.code < RESPONSE ==> Scheduled(q.spine)
  {
    hide Linked, Timed, CalcTimeout;
    q.HeadIsFirst();
    assert node !in q.spine;
    var queued := SendConfirmed(q, node, at, r, sendOk);
    all' := if queued then all + {node} else all;
    assert Pow2(0) == 1;
  }

  method HappenDrain(q: Queue, obs: Registry, at: int, ghost all: set<Node>, ghost now: int)
    requires Accounted(q, all, now) && now <= at
    modifies q`head, q`spine, q.spine, obs
    ensures Accounted(q, all, at)
    ensures old(Scheduled(q.spine)) ==> Scheduled(q.spine) && forall n :: n in q.spine ==>
              n.retransmitCnt > old(n.retransmitCnt) ==> 2 * (n.due - (at - q.basetime)) <= n.due
  {
    hide FateOf, NodesOf, OnSchedule, Draining, WhereTo, Live, Queue.Valid, Scheduled, FatesFit, Met, Fates, Requests;
    q.HeadIsFirst();
    InNodes(q.spine);
    LiveCount(q.spine);
    ghost var s, elapsed, steady := q.spine, at - q.basetime, Scheduled(q.spine);
    ghost var fates, v := Fates(s, elapsed), FieldsOf(NodesOf(s));
    if steady {
      FatesScheduled(s, elapsed);
    }
    ghost var up := Drain(q, obs, at);
    StillLive(q, NodesOf(s), up);
    InNodes(q.spine);
    if steady {
      ScheduledAfter(q.spine, fates, v, elapsed);
    }
  }

  /** The fates of requests on schedule are on schedule, with half of the wait at most. */
  ghost predicate FatesFit(fates: map<Node, Fate>, v: map<Node, Fields>, elapsed: int)
    requires v.Keys == fates.Keys
  {
    forall n :: n in fates ==>
      n.code < RESPONSE
      && match fates[n]
         case Waits(d, c) => OnSchedule(d, v[n].timeout, c) && (c > v[n].cnt ==> 2 * (d - elapsed) <= d)
         case GivenUp => true
  }

  /** What a drain makes of a schedule. */
  lemma FatesScheduled(s: seq<Node>, elapsed: int)
    requires Scheduled(s) && forall n :: n in s ==> n.retransmitCnt <= MAX_RETRANSMIT
    ensures FatesFit(Fates(s, elapsed), FieldsOf(NodesOf(s)), elapsed) && Requests(NodesOf(s))
  {
    hide NodesOf, FateOf, OnSchedule;
    InNodes(s);
    var fates, v := Fates(s, elapsed), FieldsOf(NodesOf(s));
    forall n | n in fates
      ensures n.code < RESPONSE
      ensures match fates[n]
              case Waits(d, c) => OnSchedule(d, v[n].timeout, c) && (c > v[n].cnt ==> 2 * (d - elapsed) <= d)
              case GivenUp => true
    {
      ScheduleKept(n.due, n.timeout, n.retransmitCnt, elapsed);
    }
  }

  lemma ScheduledAfter(spine: seq<Node>, fates: map<Node, Fate>, v: map<Node, Fields>, elapsed: int)
    requires v.Keys == fates.Keys && FatesFit(fates, v, elapsed)
    requires forall n :: n in spine ==> n in fates && Met(n, fates[n], true) && n.timeout == v[n].timeout
    ensures Scheduled(spine)
    ensures forall n :: n in spine ==> n.retransmitCnt > v[n].cnt ==> 2 * (n.due - elapsed) <= n.due
  {
    hide OnSchedule;
  }

  lemma {:induction false} KeptIn(s: seq<Node>, dst: nat, token: seq<byte>)
    ensures forall n :: n in Kept(s, dst, token) ==> n in s
  {
    if s != [] {
      KeptIn(s[..|s| - 1], dst, token);
    }
  }

  method HappenCancel(q: Queue, remote: nat, token: seq<byte>, ghost all: set<Node>, ghost now: int)
    requires Accounted(q, all, now)
    modifies q, q.spine`next, q.spine`due
    ensures Accounted(q, all, now)
  {
    hide Linked, Timed, Kept, RemovedTime;
    KeptIn(q.spine, remote, token);
    q.CancelAll(remote, token);
  }

  /** One event. */
  method Happen(q: Queue, obs: Registry, e: Event, ghost all: set<Node>, ghost now: int)
    returns (ghost all': set<Node>)
    requires Accounted(q, all, now) && now <= Clock(e, now)
    modifies q, obs, all
    ensures Accounted(q, all', Clock(e, now)) && all <= all' && fresh(all' - all)
    ensures old(Scheduled(q.spine)) && Steady(e) ==> Scheduled(q.spine)
  {
    hide Linked, Timed, OnSchedule;
    all' := all;
    match e {
      case Send(id, remote, token, code, at, r, sendOk) =>
        var node := new Node(id, remote, token, code, 0);
        all' := HappenSend(q, node, at, r, sendOk, all, now);
      case DrainDue(at) =>
        HappenDrain(q, obs, at, all, now);
      case Answer(id) =>
        var _, _ := q.Remove(id);
      case Cancel(remote, token) =>
        HappenCancel(q, remote, token, all, now);
      case Rebase(at) =>
        var _ := q.AdjustBasetime(at);
      case Observe(lists) =>
        obs.lists := lists;
    }
  }

  /** Any sequence of events, on a queue that starts empty: each message ever sent has
      gone out at most five times, those taken out included, and those still queued once
      more than they were retransmitted. With steady events only, no deadline is ever
      moved up. */
  method Play(q: Queue, obs: Registry, events: seq<Event>, now: int) returns (ghost all: set<Node>)
    requires q.Valid() && q.spine == [] && q.basetime <= now && InOrder(events, now)
    modifies q, obs
    ensures q.Valid() && fresh(all)
    ensures forall n :: n in all ==> 1 <= n.sent <= 5
    ensures forall n :: n in all ==> 2000 <= n.timeout <= 3000
    ensures forall n :: n in q.spine ==> n in all && n.sent == 1 + n.retransmitCnt
    ensures (forall e :: e in events ==> Steady(e)) ==>
              forall n :: n in q.spine ==> n.timeout * Pow2(n.retransmitCnt) <= n.due
  {
    hide Steady;
    all := {};
    ghost var clock := now;
    var i := 0;
    while i < |events|
      invariant i <= |events| && InOrder(events[i..], clock)
      invariant Accounted(q, all, clock) && fresh(all)
      invariant (forall e :: e in events ==> Steady(e)) ==> Scheduled(q.spine)
    {
      assert events[i] in events;
      all := Happen(q, obs, events[i], all, clock);
      clock := Clock(events[i], clock);
      assert events[i..][1..] == events[i + 1..];
      i := i + 1;
    }
  }

  /** Two requests to different peers, due at 2000 and 2500. */
  method TwoQueued() returns (q: Queue, a: Node, b: Node)
    ensures fresh(q) && fresh(a) && fresh(b) && q.Valid() && q.spine == [a, b] && q.basetime == 0
    ensures a.due == a.t == 2000 && b.due == 2500 && b.timeout == 2000 && b.retransmitCnt == 0 && Live(b)
    ensures a.remote == 1 && b.remote == 2 && b.code < RESPONSE && a.token == b.token == []
  {
    hide Linked, Timed, CalcTimeout;
    q := new Queue();
    a := new Node(1, 1, [], 1, 0);
    b := new Node(2, 2, [], 1, 0);
    TimeoutBounds(0, TICKS_PER_SECOND);
    var first := SendConfirmed(q, a, 0, 0, true);
    assert q.spine == [a];
    var second := SendConfirmed(q, b, 500, 0, true);
    ghost var k :| 0 <= k <= 1 && q.spine == [a][..k] + [b] + [a][k..];
    SecondBehind(q, a, b, k);
    q.HeadIsFirst();
  }

  lemma SecondBehind(q: Queue, a: Node, b: Node, k: nat)
    requires q.Valid() && k <= 1 && q.spine == [a][..k] + [b] + [a][k..] && a.due < b.due
    ensures q.spine == [a, b]
  {
    if k == 0 {
      assert q.spine == [b, a];
      q.Ordered(0, 1);
    }
  }

  /** A run in which a message is off its schedule: with the first of the two cancelled,
      the second goes out again 500 ticks after the base time already, and 3500 of 4000
      ticks are left. */
  method MovedUp() returns (q: Queue, b: Node)
    ensures q.Valid() && q.spine == [b] && q.basetime == 0 && b.timeout == 2000 && b.retransmitCnt == 1
    ensures b.due == 4000 && 2 * (b.due - 500) > b.due
  {
    hide Queue.Valid, Kept, RemovedTime;
    var a: Node;
    q, a, b := TwoQueued();
    FirstCancelled(a, b);
    assert [a, b][..1] == [a];
    q.CancelAll(1, []);
    DrainLast(q, b);
  }

  /** The only message is due 500 ticks after the base time, and drained then. */
  method DrainLast(q: Queue, b: Node)
    requires q.Valid() && q.spine == [b] && q.basetime == 0 && b.code < RESPONSE && Live(b)
    requires b.due == 500 && b.timeout == 2000 && b.retransmitCnt == 0
    modifies q`head, q`spine, b
    ensures q.Valid() && q.spine == [b] && b.timeout == 2000 && b.due == 4000 && b.retransmitCnt == 1
  {
    hide Queue.Valid, NodesOf, InAccount, FateOf, Fates, Live;
    OneNode(b);
    OneFate(b);
    var obs := new Registry();
    ghost var up := Drain(q, obs, 500);
    StillLive(q, {b}, up);
    q.HeadIsFirst();
    NoOther(q.spine, b);
  }

  lemma OneFate(b: Node)
    requires b.due == 500 && b.timeout == 2000 && b.retransmitCnt == 0
    ensures b in Fates([b], 500) && Fates([b], 500)[b] == Waits(4000, 1)
  {
    OneNode(b);
  }

  lemma FirstCancelled(a: Node, b: Node)
    requires a.Matches(1, []) && !b.Matches(1, [])
    ensures Kept([a, b], 1, []) == [b] && RemovedTime([a], 1, []) == a.t
  {
    assert [a, b][..1] == [a] && [a][..0] == [];
    KeptNext([a, b], 1, 1, []);
    KeptNext([a, b], 0, 1, []);
    assert [a, b][..2] == [a, b];
  }

  lemma OneNode(b: Node)
    ensures NodesOf([b]) == {b}
  {
    assert [b][0] == b;
  }

  lemma NoOther(s: seq<Node>, b: Node)
    requires Distinct(s) && NodesOf(s) == {b}
    ensures s == [b]
  {
    if |s| > 1 {
      NodesHave(s, 0);
      NodesHave(s, 1);
    }
    if s != [] {
      NodesHave(s, 0);
    }
  }
}
