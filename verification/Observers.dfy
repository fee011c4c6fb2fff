/** Observers of resources and what becomes of them when notifications fail
    (resource.c). */
module Observers {
  import opened Bytes
  import opened SendQueue

  const OBS_MAX_FAIL := 3

  /** coap_subscription_t; failCnt has two bits. */
  datatype Subscription = Subscription(remote: nat, token: seq<byte>, failCnt: nat)
  {
    predicate Is(remote: nat, token: seq<byte>) {
      this.remote == remote && this.token == token
    }
  }

  /** What a failed notification does to the observers of one resource. The loop stops
      after the first of them, whether that is the one looked for or not. */
  function AfterFailure(subs: seq<Subscription>, remote: nat, token: seq<byte>): seq<Subscription> {
    if subs == [] || !subs[0].Is(remote, token) then subs
    else if subs[0].failCnt < OBS_MAX_FAIL then [subs[0].(failCnt := subs[0].failCnt + 1)] + subs[1..]
    else subs[1..]
  }

  /** The first observer is the one, and has failed too often. */
  predicate Drops(subs: seq<Subscription>, remote: nat, token: seq<byte>) {
    subs != [] && subs[0].Is(remote, token) && subs[0].failCnt >= OBS_MAX_FAIL
  }

  /** One failure, field by field: nothing happens to a list whose first observer is
      another peer or has another token; else it counts up to three, and then goes. */
  lemma FailureFields(subs: seq<Subscription>, remote: nat, token: seq<byte>)
    ensures (var next := AfterFailure(subs, remote, token);
             if subs == [] || subs[0].remote != remote || subs[0].token != token then
               next == subs && !Drops(subs, remote, token)
             else if subs[0].failCnt < 3 then
               && |next| == |subs| && next[1..] == subs[1..] && next[0].failCnt == subs[0].failCnt + 1
               && next[0].remote == remote && next[0].token == token && !Drops(subs, remote, token)
             else next == subs[1..] && Drops(subs, remote, token))
  {
  }

  /** Some resource has this observer first in its list, and it has failed three times. */
  ghost predicate SomeDrop(lists: seq<seq<Subscription>>, remote: nat, token: seq<byte>) {
    exists i :: 0 <= i < |lists| && lists[i] != []
                && lists[i][0].remote == remote && lists[i][0].token == token && lists[i][0].failCnt >= 3
  }

  lemma SomeDrops(lists: seq<seq<Subscription>>, remote: nat, token: seq<byte>)
    ensures SomeDrop(lists, remote, token) <==> exists i :: 0 <= i < |lists| && Drops(lists[i], remote, token)
  {
  }

  lemma CancelledFields(spine: seq<Node>, was: seq<Node>, remote: nat, token: seq<byte>, some: bool)
    requires Cancelled(spine, was, remote, token, some) && Distinct(was)
    ensures forall n :: n in spine ==> n in was
    ensures forall n :: n in was ==> (n in spine <==> !(some && n.remote == remote && n.token == token))
    ensures SameOrder(spine, was)
  {
    KeptFields(was, remote, token);
  }

  /** After this many failed notifications in a row. */
  function AfterFailures(subs: seq<Subscription>, remote: nat, token: seq<byte>, n: nat): seq<Subscription>
    decreases n
  {
    if n == 0 then subs else AfterFailures(AfterFailure(subs, remote, token), remote, token, n - 1)
  }

  predicate Observes(subs: seq<Subscription>, remote: nat, token: seq<byte>) {
    exists i :: 0 <= i < |subs| && subs[i].Is(remote, token)
  }

  /** No peer observes a resource twice with one token. */
  predicate Once(subs: seq<Subscription>) {
    forall i, j :: 0 <= i < j < |subs| ==> !subs[i].Is(subs[j].remote, subs[j].token)
  }

  /** An observer is taken off its resource by failed notifications exactly when it is
      the first of the list and fails more than three times; no other is ever taken off. */
  lemma {:induction false} FailuresRemove(subs: seq<Subscription>, remote: nat, token: seq<byte>, n: nat)
    requires Once(subs) && Observes(subs, remote, token) && forall s :: s in subs ==> s.failCnt <= OBS_MAX_FAIL
    ensures Observes(AfterFailures(subs, remote, token, n), remote, token)
       <==> !(subs[0].Is(remote, token) && subs[0].failCnt + n > OBS_MAX_FAIL)
    decreases n
  {
    hide Once, Observes;
    FailureStep(subs, remote, token);
    if n > 0 {
      var next := AfterFailure(subs, remote, token);
      if Drops(subs, remote, token) {
        NeverBack(next, remote, token, n - 1);
      } else {
        FailuresRemove(next, remote, token, n - 1);
      }
    } else if subs[0].Is(remote, token) {
      assert subs[0] in subs;
    }
  }

  lemma FailureStep(subs: seq<Subscription>, remote: nat, token: seq<byte>)
    requires Once(subs) && Observes(subs, remote, token) && forall s :: s in subs ==> s.failCnt <= OBS_MAX_FAIL
    ensures subs != []
    ensures var next := AfterFailure(subs, remote, token);
            && (forall s :: s in next ==> s.failCnt <= OBS_MAX_FAIL)
            && (Observes(next, remote, token) <==> !Drops(subs, remote, token))
            && (!Drops(subs, remote, token) ==> Once(next) && (next[0].Is(remote, token) <==> subs[0].Is(remote, token)))
  {
    var i :| 0 <= i < |subs| && subs[i].Is(remote, token);
    if Drops(subs, remote, token) {
      FirstGone(subs, remote, token);
    } else {
      FirstStays(subs, remote, token);
      assert AfterFailure(subs, remote, token)[i].Is(remote, token);
    }
  }

  lemma FirstGone(subs: seq<Subscription>, remote: nat, token: seq<byte>)
    requires Once(subs) && Drops(subs, remote, token)
    ensures AfterFailure(subs, remote, token) == subs[1..] && !Observes(subs[1..], remote, token)
    ensures forall s :: s in subs[1..] ==> s in subs
  {
  }

  lemma FirstStays(subs: seq<Subscription>, remote: nat, token: seq<byte>)
    requires Once(subs) && subs != [] && !Drops(subs, remote, token) && forall s :: s in subs ==> s.failCnt <= OBS_MAX_FAIL
    ensures var next := AfterFailure(subs, remote, token);
            && |next| == |subs| && Once(next) && (forall s :: s in next ==> s.failCnt <= OBS_MAX_FAIL)
            && forall j, r: nat, t :: 0 <= j < |subs| ==> (next[j].Is(r, t) <==> subs[j].Is(r, t))
  {
    var next := AfterFailure(subs, remote, token);
    assert forall j :: 0 <= j < |subs| ==> next[j].remote == subs[j].remote && next[j].token == subs[j].token;
    forall s | s in next ensures s.failCnt <= OBS_MAX_FAIL {
      var j :| 0 <= j < |next| && next[j] == s;
      assert subs[j] in subs;
    }
  }

  lemma {:induction false} NeverBack(subs: seq<Subscription>, remote: nat, token: seq<byte>, n: nat)
    requires !Observes(subs, remote, token)
    ensures !Observes(AfterFailures(subs, remote, token, n), remote, token)
    decreases n
  {
    if n > 0 {
      NeverBack(AfterFailure(subs, remote, token), remote, token, n - 1);
    }
  }

  /** The second observer of a resource stays, however often it fails. */
  lemma SecondStays(n: nat)
    ensures Observes(AfterFailures([Subscription(1, [], 0), Subscription(2, [], 0)], 2, [], n), 2, [])
  {
    var subs := [Subscription(1, [], 0), Subscription(2, [], 0)];
    assert subs[1].Is(2, []);
    FailuresRemove(subs, 2, [], n);
  }

  /** What a failure leaves of the queue. */
  ghost predicate Cancelled(spine: seq<Node>, was: seq<Node>, remote: nat, token: seq<byte>, some: bool) {
    spine == if some then Kept(was, remote, token) else was
  }

  /** The observers of all resources, in the order in which the table is gone through. */
  class Registry {
    var lists: seq<seq<Subscription>>

    constructor ()
      ensures lists == []
    {
      lists := [];
    }

    /** coap_remove_failed_observers for the i-th resource. */
    method RemoveFailed(i: nat, q: Queue, remote: nat, token: seq<byte>) returns (removed: bool)
      requires q.Valid() && i < |lists|
      modifies this, q`head, q`spine, q.spine`next, q.spine`due
      ensures q.Valid() && lists == old(lists)[i := AfterFailure(old(lists)[i], remote, token)]
      ensures removed == Drops(old(lists)[i], remote, token)
      ensures Cancelled(q.spine, old(q.spine), remote, token, removed)
      ensures forall j {:trigger old(q.spine)[j]} :: 0 <= j < |old(q.spine)| ==>
                old(q.spine)[j].due == old(q.spine[j].due) - if removed then old(RemovedTime(q.spine[..j], remote, token)) else 0
    {
      hide Queue.Valid, Kept, RemovedTime;
      removed := false;
      var subs := lists[i];
      if subs != [] {
        var obs := subs[0];
        if obs.Is(remote, token) {
          if obs.failCnt < OBS_MAX_FAIL {
            lists := lists[i := [obs.(failCnt := obs.failCnt + 1)] + subs[1..]];
          } else {
            lists := lists[i := subs[1..]];
            q.CancelAll(remote, token);
            removed := true;
          }
        }
      }
    }

    /** coap_handle_failed_notify: with the observer of any resource the messages to it
        are cancelled, and the deadlines of the others move up. */
    method HandleFailedNotify(q: Queue, remote: nat, token: seq<byte>) returns (ghost some: bool)
      requires q.Valid()
      modifies this, q`head, q`spine, q.spine`next, q.spine`due
      ensures q.Valid() && |lists| == |old(lists)|
      ensures forall i :: 0 <= i < |lists| ==> lists[i] == AfterFailure(old(lists)[i], remote, token)
      ensures some == SomeDrop(old(lists), remote, token)
      ensures Cancelled(q.spine, old(q.spine), remote, token, some)
      ensures forall n :: n in old(q.spine) ==> (n in q.spine <==> !(some && n.remote == remote && n.token == token))
      ensures SameOrder(q.spine, old(q.spine))
      ensures forall j {:trigger old(q.spine)[j]} :: 0 <= j < |old(q.spine)| ==>
                old(q.spine)[j].due == old(q.spine[j].due) - if some then old(RemovedTime(q.spine[..j], remote, token)) else 0
    {
      hide Queue.Valid, AfterFailure, Drops, Cancelled, SomeDrop, SameOrder, MovedUp, TimesAre;
      some := false;
      ghost var s, ls := q.spine, lists;
      ghost var ds, rts := Dues(s), RemovedTimes(s, remote, token);
      q.HeadIsFirst();
      NotYet(s, ds, rts, remote, token);
      for i := 0 to |lists|
        invariant q.Valid() && |lists| == |ls| && (forall k :: 0 <= k < |q.spine| ==> q.spine[k] in s)
        invariant forall j :: 0 <= j < |ls| ==> lists[j] == if j < i then AfterFailure(ls[j], remote, token) else ls[j]
        invariant some == exists j :: 0 <= j < i && Drops(ls[j], remote, token)
        invariant Cancelled(q.spine, s, remote, token, some) && MovedUp(s, ds, rts, some)
        invariant TimesAre(s, rts, remote, token)
      {
        some := FailOne(i, q, remote, token, s, ds, rts, some);
      }
      SomeDrops(ls, remote, token);
      CancelledFields(q.spine, s, remote, token, some);
      MovedBy(s, ds, rts, some, remote, token);
    }

    /** The failure for one resource, when some of the messages `s` may be gone already. */
    method FailOne(i: nat, q: Queue, remote: nat, token: seq<byte>, ghost s: seq<Node>, ghost ds: seq<nat>,
                   ghost rts: seq<nat>, ghost some: bool)
      returns (ghost some': bool)
      requires q.Valid() && i < |lists| && Distinct(s) && TimesAre(s, rts, remote, token) && |ds| == |s|
      requires |rts| == |s| && Cancelled(q.spine, s, remote, token, some) && MovedUp(s, ds, rts, some)
      modifies this, q`head, q`spine, q.spine`next, q.spine`due
      ensures q.Valid() && lists == old(lists)[i := AfterFailure(old(lists)[i], remote, token)]
      ensures some' == (some || Drops(old(lists)[i], remote, token))
      ensures Cancelled(q.spine, s, remote, token, some') && MovedUp(s, ds, rts, some')
      ensures (forall k :: 0 <= k < |q.spine| ==> q.spine[k] in s) && TimesAre(s, rts, remote, token)
    {
      hide Queue.Valid, AfterFailure, Drops, Kept, RemovedTime, TimesAre, SameOrder, MovedUp;
      if some {
        NothingLeft(s, remote, token);
        KeptTwice(s, remote, token);
      } else {
        SameTimes(s, rts, remote, token);
      }
      ghost var t, was := q.spine, Dues(s);
      MovedBy(s, ds, rts, some, remote, token);
      var removed := RemoveFailed(i, q, remote, token);
      some' := some || removed;
      CancelledFields(q.spine, s, remote, token, some');
      if some {
        assert forall k :: 0 <= k < |t| ==> t[k].due == old(t[k].due);
        assert forall j :: 0 <= j < |s| ==> s[j].due == was[j];
      } else {
        assert forall j {:trigger s[j]} :: 0 <= j < |s| ==> s[j].due + (if removed then rts[j] else 0) == was[j];
      }
      NowMoved(s, ds, rts, some');
    }
  }

  /** The times of the nodes to be cancelled in front of each node. */
  ghost function RemovedTimes(s: seq<Node>, remote: nat, token: seq<byte>): (rts: seq<nat>)
    reads s
    ensures |rts| == |s| && forall j :: 0 <= j < |s| ==> rts[j] == RemovedTime(s[..j], remote, token)
  {
    seq(|s|, j requires 0 <= j < |s| reads s => RemovedTime(s[..j], remote, token))
  }

  /** Where the deadlines `ds` have got to. */
  ghost predicate MovedUp(s: seq<Node>, ds: seq<nat>, rts: seq<nat>, some: bool)
    requires |ds| == |rts| == |s|
    reads s`due
  {
    forall j {:trigger s[j]} :: 0 <= j < |s| ==> s[j].due + (if some then rts[j] else 0) == ds[j]
  }

  /** The removed times of `s`. */
  ghost predicate TimesAre(s: seq<Node>, rts: seq<nat>, remote: nat, token: seq<byte>)
    reads s`t
  {
    |rts| == |s| && forall j {:trigger rts[j]} :: 0 <= j < |s| ==> rts[j] == RemovedTime(s[..j], remote, token)
  }

  lemma SameTimes(s: seq<Node>, rts: seq<nat>, remote: nat, token: seq<byte>)
    requires TimesAre(s, rts, remote, token)
    ensures |rts| == |s| && forall j {:trigger s[j]} :: 0 <= j < |s| ==> rts[j] == RemovedTime(s[..j], remote, token)
  {
  }

  lemma NotYet(s: seq<Node>, ds: seq<nat>, rts: seq<nat>, remote: nat, token: seq<byte>)
    requires ds == Dues(s) && rts == RemovedTimes(s, remote, token)
    ensures MovedUp(s, ds, rts, false) && Cancelled(s, s, remote, token, false) && TimesAre(s, rts, remote, token)
  {
  }

  lemma NowMoved(s: seq<Node>, ds: seq<nat>, rts: seq<nat>, some: bool)
    requires |ds| == |rts| == |s|
    requires forall j {:trigger s[j]} :: 0 <= j < |s| ==> s[j].due + (if some then rts[j] else 0) == ds[j]
    ensures MovedUp(s, ds, rts, some)
  {
  }

  lemma MovedBy(s: seq<Node>, ds: seq<nat>, rts: seq<nat>, some: bool, remote: nat, token: seq<byte>)
    requires |ds| == |rts| == |s| && MovedUp(s, ds, rts, some) && TimesAre(s, rts, remote, token)
    ensures forall j {:trigger s[j]} :: 0 <= j < |s| ==> rts[j] == RemovedTime(s[..j], remote, token)
    ensures forall j {:trigger s[j]} :: 0 <= j < |s| ==> s[j].due + (if some then rts[j] else 0) == ds[j]
  {
  }

  /** In what is kept there is no time left to remove. */
  lemma NothingLeft(s: seq<Node>, remote: nat, token: seq<byte>)
    ensures forall j :: 0 <= j <= |Kept(s, remote, token)| ==> RemovedTime(Kept(s, remote, token)[..j], remote, token) == 0
  {
    KeptTwice(s, remote, token);
    var kept := Kept(s, remote, token);
    forall j | 0 <= j <= |kept| ensures RemovedTime(kept[..j], remote, token) == 0 {
      NoneRemoved(kept[..j], remote, token);
    }
  }
}
