/**
  The session registry `active_users` (username -> connection). A Python dict
  iterates in insertion order, so the registry is a map together with the order
  of its keys: assigning to a present key keeps its place, a new key goes last,
  `del` takes the key out. Broadcast is one send per key, in that order.
 */
module Registry {
  import opened Wire

  predicate NoDup<T(==)>(s: seq<T>) {
    forall i, j :: 0 <= i < j < |s| ==> s[i] != s[j]
  }

  lemma NoDupSnoc<T>(s: seq<T>, x: T)
    requires NoDup(s) && x !in s
    ensures NoDup(s + [x])
  {
  }

  /** `order` lists exactly the registered usernames, each once. */
  ghost predicate WellFormed(order: seq<string>, active: map<string, ConnId>) {
    NoDup(order) && forall u :: u in order <==> u in active
  }

  /** No connection is registered under two names. */
  ghost predicate Injective(active: map<string, ConnId>) {
    forall u, v :: u in active && v in active && u != v ==> active[u] != active[v]
  }

  /** Key order after `active_users[u] = ...`. */
  function Enrol(order: seq<string>, u: string): seq<string> {
    if u in order then order else order + [u]
  }

  /** Registering a connection under `u`, new name or not, keeps the registry well formed. */
  lemma EnrolWellFormed(order: seq<string>, active: map<string, ConnId>, u: string, c: ConnId)
    requires WellFormed(order, active)
    ensures WellFormed(Enrol(order, u), active[u := c])
  {
  }

  /** Registering keeps the names already present in their places, and a new name goes last. */
  lemma EnrolKeepsPlaces(order: seq<string>, u: string)
    ensures |order| <= |Enrol(order, u)| <= |order| + 1
    ensures Enrol(order, u)[..|order|] == order
    ensures u !in order ==> Enrol(order, u)[|order|] == u
  {
  }

  /** Key order after `del active_users[u]`. */
  function Drop(order: seq<string>, u: string): (r: seq<string>)
    ensures forall v :: v in r <==> v in order && v != u
    ensures NoDup(order) ==> NoDup(r) && |r| == if u in order then |order| - 1 else |order|
  {
    if order == [] then []
    else
      var init, last := order[..|order| - 1], order[|order| - 1];
      assert order == init + [last];
      assert NoDup(order) ==> NoDup(init) && last !in init;
      if last == u then Drop(init, u)
      else
        var r := Drop(init, u);
        assert NoDup(order) ==> NoDup(r + [last]) by {
          if NoDup(order) { NoDupSnoc(r, last); }
        }
        r + [last]
  }

  /** Unregistering a name that is not registered leaves the key order as it is. */
  lemma {:induction false} DropAbsent(order: seq<string>, u: string)
    requires u !in order
    ensures Drop(order, u) == order
  {
    if order != [] {
      var init := order[..|order| - 1];
      assert order == init + [order[|order| - 1]];
      DropAbsent(init, u);
    }
  }

  /**
    Unregistering the name at position `k` removes that one position and
    leaves every other name where it was relative to the rest: a broadcast
    after the deletion visits the remaining sessions in their old order.
   */
  lemma {:induction false} DropAt(order: seq<string>, u: string, k: nat)
    requires NoDup(order) && k < |order| && order[k] == u
    ensures Drop(order, u) == order[..k] + order[k + 1..]
  {
    var n := |order|;
    var init, last := order[..n - 1], order[n - 1];
    assert order == init + [last];
    if k == n - 1 {
      DropAbsent(init, u);
      assert order[..k] + order[k + 1..] == init;
    } else {
      assert last != u;
      DropAt(init, u, k);
      assert order[..k] == init[..k];
      assert order[k + 1..] == init[k + 1..] + [last];
    }
  }

  /** A new name that logs in and then leaves restores the registry exactly, key order included. */
  lemma EnrolThenDrop(order: seq<string>, active: map<string, ConnId>, u: string, c: ConnId)
    requires WellFormed(order, active) && u !in active
    ensures Drop(Enrol(order, u), u) == order
    ensures active[u := c] - {u} == active
  {
    var e := Enrol(order, u);
    assert e[..|e| - 1] == order;
    DropAbsent(order, u);
  }

  /**
    The sends one broadcast makes: one per registered name, in key order.
    What they reach is stated by FanoutOncePerSession.
   */
  function Fanout(order: seq<string>, active: map<string, ConnId>, m: Outbound): (r: seq<Send>)
    requires forall u :: u in order ==> u in active
    ensures |r| == |order|
  {
    seq(|order|, i requires 0 <= i < |order| => Send(active[order[i]], m))
  }

  function Recipients(sends: seq<Send>): seq<ConnId> {
    seq(|sends|, i requires 0 <= i < |sends| => sends[i].to)
  }

  /**
    A broadcast reaches every registered connection exactly once and no other
    connection, and every send carries the broadcast message.
   */
  lemma FanoutOncePerSession(order: seq<string>, active: map<string, ConnId>, m: Outbound)
    requires WellFormed(order, active) && Injective(active)
    ensures NoDup(Recipients(Fanout(order, active, m)))
    ensures forall c :: c in Recipients(Fanout(order, active, m)) <==> c in active.Values
    ensures forall s :: s in Fanout(order, active, m) ==> s.payload == m
  {
    var r := Fanout(order, active, m);
    var to := Recipients(r);
    forall c | c in active.Values
      ensures c in to
    {
      var u :| u in active && active[u] == c;
      var i :| 0 <= i < |order| && order[i] == u;
      assert to[i] == c;
    }
  }
}
