/**
  The chat server's connection logic: the fixed credential table, the shared
  session registry and rate-limit table, the traffic sent so far, and one
  method per step of a connection handler (accept, authenticate, handle one
  inbound frame, disconnect), plus the whole handler for one connection run on
  its own.
 */
module ChatServer {
  import opened Wire
  import opened RateLimit
  import opened Registry

  /** The fixed credential table: username -> password. */
  const USER_DB: map<string, string> :=
    map["joe" := "joe123", "bob" := "bob123", "jim" := "jim123", "lee" := "lee123", "eve" := "eve123"]

  /** The username is a key of `db` and the password is the one stored for it. */
  predicate Authorised(db: map<string, string>, username: Option<string>, password: Option<string>) {
    username.Some? && username.value in db && password == Some(db[username.value])
  }

  /** The frame is an object whose "type" is "auth". */
  predicate IsAuth(frame: Frame) {
    frame.Object? && frame.fields.kind == Some("auth")
  }

  /** The username an `auth` frame names; the handler binds no username for any other first frame. */
  function AuthName(frame: Frame): Option<string> {
    if IsAuth(frame) then frame.fields.username else None
  }

  /** Where one connection's handler stands. */
  datatype Phase = Authenticating | Active(username: string) | Closed

  /** `user_message_timestamps.get(u, [])`. */
  function Stored(table: map<string, seq<int>>, u: string): seq<int> {
    if u in table then table[u] else []
  }

  /** `m1` and `m2` hold the same entry for `k`, or both none. */
  ghost predicate Agree<V>(m1: map<string, V>, m2: map<string, V>, k: string) {
    (k in m1 <==> k in m2) && (k in m1 ==> m1[k] == m2[k])
  }

  /** `m1` and `m2` agree on every key except possibly `except`. */
  ghost predicate Untouched<V>(m1: map<string, V>, m2: map<string, V>, except: Option<string>) {
    forall k :: Some(k) != except ==> Agree(m1, m2, k)
  }

  lemma UntouchedTrans<V>(m1: map<string, V>, m2: map<string, V>, m3: map<string, V>, except: Option<string>)
    requires Untouched(m1, m2, except) && Untouched(m2, m3, except)
    ensures Untouched(m1, m3, except)
  {
  }

  /** A second update of the same key replaces the first. */
  lemma Overwrite<K, V>(m: map<K, V>, k: K, v: V, w: V)
    ensures m[k := v][k := w] == m[k := w]
  {
  }

  /**
    The failed-login path as the source writes it: the failure notice to the
    connection, then the exit cleanup, which runs because `username` is already
    bound and so unregisters whoever is online under that name and broadcasts
    their leave notice.
   */
  function FailedLoginAsWritten(order: seq<string>, active: map<string, ConnId>, c: ConnId, username: Option<string>)
    : (r: (seq<string>, map<string, ConnId>, seq<Send>))
    requires WellFormed(order, active)
    ensures WellFormed(r.0, r.1) && |r.2| > 0 && r.2[0] == Send(c, System(AUTH_FAILED))
  {
    var notice := [Send(c, System(AUTH_FAILED))];
    if username.Some? && username.value in active then
      var u := username.value;
      var order', active' := Drop(order, u), active - {u};
      (order', active', notice + Fanout(order', active', System(LeaveNotice(u))))
    else
      (order, active, notice)
  }

  /**
    A failed login that names a user who is online evicts that user's session:
    the name leaves the registry and every other session is told it left.
   */
  lemma FailedLoginEvictsSession(order: seq<string>, active: map<string, ConnId>, c: ConnId, u: string)
    requires WellFormed(order, active) && u in active
    ensures var r := FailedLoginAsWritten(order, active, c, Some(u));
      && r.1.Keys == active.Keys - {u}
      && |r.2| == |order|
      && (forall i :: 1 <= i < |r.2| ==> r.2[i].payload == System(LeaveNotice(u)))
      && (forall v :: v in r.1 ==> Send(r.1[v], System(LeaveNotice(u))) in r.2[1..])
      && (forall i :: 1 <= i < |r.2| ==> r.2[i].to in r.1.Values)
  {
    var r := FailedLoginAsWritten(order, active, c, Some(u));
    var fan := r.2[1..];
    forall v | v in r.1
      ensures Send(r.1[v], System(LeaveNotice(u))) in fan
    {
      var i :| 0 <= i < |r.0| && r.0[i] == v;
      assert fan[i] == Send(r.1[v], System(LeaveNotice(u)));
    }
  }

  /**
    The registry lists each name once in key order, every registered session
    belongs to a live handler that authenticated under that name, and every
    handed-out connection identity is below `next`.
   */
  ghost predicate Coherent(order: seq<string>, active: map<string, ConnId>, handlers: map<ConnId, Phase>, next: ConnId) {
    && WellFormed(order, active)
    && (forall u :: u in active ==> active[u] in handlers && handlers[active[u]] == Active(u))
    && (forall c :: c in handlers ==> c < next)
  }

  /** Registering a handler that is authenticating keeps the tables coherent. */
  lemma RegisterCoherent(order: seq<string>, active: map<string, ConnId>, handlers: map<ConnId, Phase>, next: ConnId, c: ConnId, u: string)
    requires Coherent(order, active, handlers, next) && c in handlers && handlers[c] == Authenticating
    ensures Coherent(Enrol(order, u), active[u := c], handlers[c := Active(u)], next)
  {
    EnrolWellFormed(order, active, u, c);
  }

  /** Unregistering a name keeps the tables coherent. */
  lemma UnregisterCoherent(order: seq<string>, active: map<string, ConnId>, handlers: map<ConnId, Phase>, next: ConnId, u: string)
    requires Coherent(order, active, handlers, next)
    ensures Coherent(Drop(order, u), active - {u}, handlers, next)
  {
  }

  /** A handler may close once its own name, if it has one, is no longer registered. */
  lemma CloseCoherent(order: seq<string>, active: map<string, ConnId>, handlers: map<ConnId, Phase>, next: ConnId, c: ConnId)
    requires Coherent(order, active, handlers, next) && c in handlers
    requires handlers[c].Active? ==> handlers[c].username !in active
    ensures Coherent(order, active, handlers[c := Closed], next)
  {
  }

  /** A finished handler has no session left in the registry. */
  lemma ClosedHasNoSession(order: seq<string>, active: map<string, ConnId>, handlers: map<ConnId, Phase>, next: ConnId, c: ConnId)
    requires Coherent(order, active, handlers, next) && c in handlers && handlers[c] == Closed
    ensures forall u :: u in active ==> active[u] != c
  {
  }

  class Server {
    /** The credential table, USER_DB. */
    const userDb: map<string, string>
    /** The keys of `active_users` in insertion order: the order a broadcast visits them. */
    var joinOrder: seq<string>
    /** `active_users`: username -> connection. */
    var activeUsers: map<string, ConnId>
    /** `user_message_timestamps`: username -> timestamps of that user's recent messages. */
    var timestamps: map<string, seq<int>>
    /** Every send made so far, in order. */
    var outbox: seq<Send>
    /** The phase of each accepted connection's handler. */
    var handlers: map<ConnId, Phase>
    /** The identity the next accepted connection gets. */
    var nextConn: ConnId

    /** The tables are coherent (see Coherent). */
    ghost predicate Valid()
      reads this
    {
      Coherent(joinOrder, activeUsers, handlers, nextConn)
    }

    constructor ()
      ensures Valid() && userDb == USER_DB
      ensures joinOrder == [] && activeUsers == map[] && timestamps == map[]
      ensures outbox == [] && handlers == map[] && nextConn == 0
    {
      userDb := USER_DB;
      joinOrder := [];
      activeUsers := map[];
      timestamps := map[];
      outbox := [];
      handlers := map[];
      nextConn := 0;
    }

    /** No connection is registered under two names. */
    lemma SessionsInjective()
      requires Valid()
      ensures Injective(activeUsers)
    {
    }

    /** A new connection arrives; its handler waits for the first frame. */
    method Accept() returns (c: ConnId)
      requires Valid()
      modifies this`handlers, this`nextConn
      ensures Valid()
      ensures c == old(nextConn) && c !in old(handlers) && handlers == old(handlers)[c := Authenticating]
      ensures nextConn == old(nextConn) + 1
    {
      c := nextConn;
      handlers := handlers[c := Authenticating];
      nextConn := nextConn + 1;
    }

    /**
      Sliding-window check for `u` at time `now`: prune, append `now`, store,
      and report whether the stored list is over the limit. `now` is stored
      whatever the verdict, and no other user's list changes.
     */
    method RateLimited(u: string, now: int) returns (limited: bool)
      modifies this`timestamps
      ensures timestamps == old(timestamps)[u := Recorded(Stored(old(timestamps), u), now)]
      ensures limited <==> |timestamps[u]| > MAX_MESSAGES
      ensures limited <==> Limited(Stored(old(timestamps), u), now)
    {
      var ts := Kept(Stored(timestamps, u), now);
      ts := ts + [now];
      timestamps := timestamps[u := ts];
      limited := |ts| > MAX_MESSAGES;
    }

    /** One send of `m` to every registered session, in key order. */
    method Broadcast(m: Outbound)
      requires WellFormed(joinOrder, activeUsers)
      modifies this`outbox
      ensures outbox == old(outbox) + Fanout(joinOrder, activeUsers, m)
    {
      var i := 0;
      while i < |joinOrder|
        invariant 0 <= i <= |joinOrder|
        invariant outbox == old(outbox) + Fanout(joinOrder[..i], activeUsers, m)
      {
        assert joinOrder[..i + 1][..i] == joinOrder[..i];
        outbox := outbox + [Send(activeUsers[joinOrder[i]], m)];
        i := i + 1;
      }
      assert joinOrder[..i] == joinOrder;
    }

    /** The exit cleanup: if `u` is registered, unregister it and tell the remaining sessions. */
    method Cleanup(u: string)
      requires Valid()
      modifies this`joinOrder, this`activeUsers, this`outbox
      ensures Valid() && u !in activeUsers
      ensures u in old(activeUsers) ==>
        && joinOrder == Drop(old(joinOrder), u)
        && activeUsers == old(activeUsers) - {u}
        && outbox == old(outbox) + Fanout(joinOrder, activeUsers, System(LeaveNotice(u)))
      ensures u !in old(activeUsers) ==>
        joinOrder == old(joinOrder) && activeUsers == old(activeUsers) && outbox == old(outbox)
    {
      if u in activeUsers {
        UnregisterCoherent(joinOrder, activeUsers, handlers, nextConn, u);
        activeUsers := activeUsers - {u};
        joinOrder := Drop(joinOrder, u);
        Broadcast(System(LeaveNotice(u)));
      }
    }

    /**
      Dispatch one message from `u`: the rate limit first, whatever the type;
      then `chat` is broadcast and `heartbeat` answered to the sender; any other
      type is ignored. Replies go to the connection registered under `u`;
      `raised` is the KeyError when none is.
     */
    method HandleMessage(u: string, msg: Inbound, now: int) returns (raised: bool)
      requires Valid()
      modifies this`timestamps, this`outbox
      ensures Valid()
      ensures timestamps == old(timestamps)[u := Recorded(Stored(old(timestamps), u), now)]
      ensures raised <==> u !in activeUsers && (Limited(Stored(old(timestamps), u), now) || msg.kind == Some("heartbeat"))
      ensures raised ==> outbox == old(outbox)
      ensures Limited(Stored(old(timestamps), u), now) && !raised ==>
        outbox == old(outbox) + [Send(activeUsers[u], System(TOO_FAST))]
      ensures !Limited(Stored(old(timestamps), u), now) && msg.kind == Some("chat") ==>
        outbox == old(outbox) + Fanout(joinOrder, activeUsers, Chat(u, msg.message.GetOr("")))
      ensures !Limited(Stored(old(timestamps), u), now) && msg.kind == Some("heartbeat") && !raised ==>
        outbox == old(outbox) + [Send(activeUsers[u], HeartbeatAck(PONG))]
      ensures !Limited(Stored(old(timestamps), u), now) && msg.kind != Some("chat") && msg.kind != Some("heartbeat") ==>
        outbox == old(outbox)
    {
      var limited := RateLimited(u, now);
      if limited {
        if u !in activeUsers {
          return true;
        }
        outbox := outbox + [Send(activeUsers[u], System(TOO_FAST))];
        return false;
      }
      if msg.kind == Some("chat") {
        Broadcast(Chat(u, msg.message.GetOr("")));
      } else if msg.kind == Some("heartbeat") {
        if u !in activeUsers {
          return true;
        }
        outbox := outbox + [Send(activeUsers[u], HeartbeatAck(PONG))];
      }
      raised := false;
    }

    /**
      The first frame of connection `c`. Only an `auth` object with a username
      and password that match USER_DB registers the user (replacing any session
      already under that name) and broadcasts the join notice. Any other first
      frame closes the connection: with "Authentication failed." when it was an
      `auth` object, with no reply otherwise. A failed login leaves the registry
      as it was (see FailedLoginAsWritten for the source's behaviour here).
     */
    method Authenticate(c: ConnId, frame: Frame) returns (phase: Phase)
      requires Valid() && c in handlers && handlers[c] == Authenticating
      modifies this`joinOrder, this`activeUsers, this`outbox, this`handlers
      ensures Valid()
      ensures handlers == old(handlers)[c := phase]
      ensures phase.Active? <==> IsAuth(frame) && Authorised(userDb, frame.fields.username, frame.fields.password)
      ensures phase.Active? ==> (
        && IsAuth(frame) && frame.fields.username.Some?
        && var u := frame.fields.username.value;
        && phase == Active(u)
        && joinOrder == Enrol(old(joinOrder), u)
        && activeUsers == old(activeUsers)[u := c]
        && outbox == old(outbox) + Fanout(joinOrder, activeUsers, System(JoinNotice(u))))
      ensures !phase.Active? ==> phase == Closed && joinOrder == old(joinOrder) && activeUsers == old(activeUsers)
      ensures !phase.Active? && IsAuth(frame) ==> outbox == old(outbox) + [Send(c, System(AUTH_FAILED))]
      ensures !IsAuth(frame) ==> outbox == old(outbox)
      ensures Untouched(activeUsers, old(activeUsers), AuthName(frame))
    {
      if !IsAuth(frame) {
        // the handler raises before `username` is bound: nothing to clean up
        Close(c);
        phase := Closed;
      } else if Authorised(userDb, frame.fields.username, frame.fields.password) {
        var u := frame.fields.username.value;
        Login(c, u);
        phase := Active(u);
      } else {
        Refuse(c);
        phase := Closed;
      }
    }

    /** A failed login: the failure notice to `c`, then the handler is finished. */
    method Refuse(c: ConnId)
      requires Valid() && c in handlers && handlers[c] == Authenticating
      modifies this`outbox, this`handlers
      ensures Valid() && handlers == old(handlers)[c := Closed]
      ensures outbox == old(outbox) + [Send(c, System(AUTH_FAILED))]
    {
      outbox := outbox + [Send(c, System(AUTH_FAILED))];
      Close(c);
    }

    /** Register connection `c` under `u` (`active_users[u] = websocket`) and announce it. */
    method Login(c: ConnId, u: string)
      requires Valid() && c in handlers && handlers[c] == Authenticating
      modifies this`joinOrder, this`activeUsers, this`outbox, this`handlers
      ensures Valid()
      ensures handlers == old(handlers)[c := Active(u)]
      ensures joinOrder == Enrol(old(joinOrder), u) && activeUsers == old(activeUsers)[u := c]
      ensures outbox == old(outbox) + Fanout(joinOrder, activeUsers, System(JoinNotice(u)))
    {
      RegisterCoherent(joinOrder, activeUsers, handlers, nextConn, c, u);
      activeUsers := activeUsers[u := c];
      joinOrder := Enrol(joinOrder, u);
      handlers := handlers[c := Active(u)];
      Broadcast(System(JoinNotice(u)));
    }

    /** Mark the handler of `c` finished; its own name, if any, is already unregistered. */
    method Close(c: ConnId)
      requires Valid() && c in handlers
      requires handlers[c].Active? ==> handlers[c].username !in activeUsers
      modifies this`handlers
      ensures Valid() && handlers == old(handlers)[c := Closed]
    {
      CloseCoherent(joinOrder, activeUsers, handlers, nextConn, c);
      handlers := handlers[c := Closed];
    }

    /**
      One inbound frame on an authenticated connection. A frame that is not a
      JSON object, or a dispatch that raises, ends the handler and runs the exit
      cleanup. Only entries keyed by the handler's own username change.
     */
    method Receive(c: ConnId, frame: Frame, now: int) returns (phase: Phase)
      requires Valid() && c in handlers && handlers[c].Active?
      modifies this
      ensures Valid()
      ensures handlers == old(handlers)[c := phase] && nextConn == old(nextConn)
      ensures phase == old(handlers[c]) || phase == Closed
      ensures Untouched(activeUsers, old(activeUsers), Some(old(handlers[c]).username))
      ensures Untouched(timestamps, old(timestamps), Some(old(handlers[c]).username))
      ensures frame.Malformed? ==> var u := old(handlers[c]).username;
        && phase == Closed && timestamps == old(timestamps) && u !in activeUsers
        && (u in old(activeUsers) ==> outbox == old(outbox) + Fanout(joinOrder, activeUsers, System(LeaveNotice(u))))
        && (u !in old(activeUsers) ==> outbox == old(outbox))
      ensures frame.Object? ==> var u := old(handlers[c]).username;
        timestamps == old(timestamps)[u := Recorded(Stored(old(timestamps), u), now)]
      ensures frame.Object? ==> joinOrder == old(joinOrder) && activeUsers == old(activeUsers)
      ensures phase == Closed ==> old(handlers[c]).username !in activeUsers
      ensures phase == Closed ==> joinOrder == Drop(old(joinOrder), old(handlers[c]).username)
      ensures frame.Object? ==> var u := old(handlers[c]).username;
        var limited := Limited(Stored(old(timestamps), u), now);
        && (phase == Closed <==> u !in old(activeUsers) && (limited || frame.fields.kind == Some("heartbeat")))
        && (phase == Closed ==> outbox == old(outbox))
        && (limited && phase.Active? ==> outbox == old(outbox) + [Send(activeUsers[u], System(TOO_FAST))])
        && (!limited && frame.fields.kind == Some("chat") ==>
             outbox == old(outbox) + Fanout(joinOrder, activeUsers, Chat(u, frame.fields.message.GetOr(""))))
        && (!limited && frame.fields.kind == Some("heartbeat") && phase.Active? ==>
             outbox == old(outbox) + [Send(activeUsers[u], HeartbeatAck(PONG))])
        && (!limited && frame.fields.kind != Some("chat") && frame.fields.kind != Some("heartbeat") ==>
             outbox == old(outbox))
    {
      var u := handlers[c].username;
      if frame.Malformed? {
        if u !in activeUsers {
          DropAbsent(joinOrder, u);
        }
        Exit(c);
        phase := Closed;
      } else {
        var raised := HandleMessage(u, frame.fields, now);
        if raised {
          // `u` is no longer registered, so the cleanup finds nothing to do
          DropAbsent(joinOrder, u);
          Exit(c);
          phase := Closed;
        } else {
          phase := Active(u);
        }
      }
    }

    /** An authenticated handler ends: the exit cleanup for its username, then the handler is finished. */
    method Exit(c: ConnId)
      requires Valid() && c in handlers && handlers[c].Active?
      modifies this`joinOrder, this`activeUsers, this`outbox, this`handlers
      ensures Valid()
      ensures handlers == old(handlers)[c := Closed]
      ensures var u := old(handlers[c]).username;
        && u !in activeUsers
        && Untouched(activeUsers, old(activeUsers), Some(u))
        && (u in old(activeUsers) ==>
             joinOrder == Drop(old(joinOrder), u) && outbox == old(outbox) + Fanout(joinOrder, activeUsers, System(LeaveNotice(u))))
        && (u !in old(activeUsers) ==>
             joinOrder == old(joinOrder) && activeUsers == old(activeUsers) && outbox == old(outbox))
    {
      Cleanup(handlers[c].username);
      Close(c);
    }

    /**
      The connection closes. A handler still waiting for its first frame has
      bound no username and cleans up nothing; an authenticated one unregisters
      its name if still present and broadcasts one leave notice. The rate-limit
      table is left as it is.
     */
    method Disconnect(c: ConnId)
      requires Valid() && c in handlers && handlers[c] != Closed
      modifies this
      ensures Valid()
      ensures handlers == old(handlers)[c := Closed] && nextConn == old(nextConn)
      ensures timestamps == old(timestamps)
      ensures old(handlers[c]).Authenticating? ==>
        joinOrder == old(joinOrder) && activeUsers == old(activeUsers) && outbox == old(outbox)
      ensures old(handlers[c]).Active? ==> var u := old(handlers[c]).username;
        && u !in activeUsers
        && Untouched(activeUsers, old(activeUsers), Some(u))
        && (u in old(activeUsers) ==>
             joinOrder == Drop(old(joinOrder), u) && outbox == old(outbox) + Fanout(joinOrder, activeUsers, System(LeaveNotice(u))))
        && (u !in old(activeUsers) ==>
             joinOrder == old(joinOrder) && activeUsers == old(activeUsers) && outbox == old(outbox))
    {
      if handlers[c].Active? {
        Exit(c);
      } else {
        Close(c);
      }
    }

    /**
      The message loop of an authenticated connection: handle `frames` (frame i
      arriving at `times[i]`) until they run out or the handler exits, then,
      if the client simply closed, the exit cleanup. Only entries keyed by the
      handler's own username change.
     */
    method Serve(c: ConnId, frames: seq<Frame>, times: seq<int>)
      requires Valid() && c in handlers && handlers[c].Active? && |times| == |frames|
      modifies this
      ensures Valid()
      ensures handlers == old(handlers)[c := Closed] && nextConn == old(nextConn)
      ensures Untouched(activeUsers, old(activeUsers), Some(old(handlers[c]).username))
      ensures Untouched(timestamps, old(timestamps), Some(old(handlers[c]).username))
      ensures old(handlers[c]).username !in activeUsers
      ensures joinOrder == Drop(old(joinOrder), old(handlers[c]).username)
      ensures old(outbox) <= outbox
    {
      ghost var name := Some(handlers[c].username);
      var phase := handlers[c];
      var i := 0;
      while i < |frames| && phase.Active?
        invariant 0 <= i <= |frames|
        invariant Valid() && nextConn == old(nextConn)
        invariant handlers == old(handlers)[c := phase]
        invariant phase == old(handlers[c]) || phase == Closed
        invariant Untouched(activeUsers, old(activeUsers), name)
        invariant Untouched(timestamps, old(timestamps), name)
        invariant phase == Closed ==> name.value !in activeUsers
        invariant old(outbox) <= outbox
        invariant phase.Active? ==> joinOrder == old(joinOrder) && activeUsers == old(activeUsers)
        invariant phase == Closed ==> joinOrder == Drop(old(joinOrder), name.value)
      {
        ghost var active0, stamps0 := activeUsers, timestamps;
        phase := Receive(c, frames[i], times[i]);
        UntouchedTrans(activeUsers, active0, old(activeUsers), name);
        UntouchedTrans(timestamps, stamps0, old(timestamps), name);
        i := i + 1;
      }
      if phase.Active? {
        // the client closed the connection: the loop ends and the cleanup runs
        ghost var active0 := activeUsers;
        if name.value !in activeUsers {
          DropAbsent(joinOrder, name.value);
        }
        Disconnect(c);
        UntouchedTrans(activeUsers, active0, old(activeUsers), name);
      }
    }

    /**
      One connection handled from accept to close with no other connection
      interleaved: authenticate on `first`, then serve `rest`. Afterwards the
      handler is finished, no session points at the connection, and only
      entries keyed by the name in `first` have changed.
     */
    method HandleConnection(first: Frame, rest: seq<Frame>, times: seq<int>) returns (c: ConnId)
      requires Valid() && |times| == |rest|
      modifies this
      ensures Valid()
      ensures c == old(nextConn) && handlers == old(handlers)[c := Closed] && nextConn == c + 1
      ensures forall u :: u in activeUsers ==> activeUsers[u] != c
      ensures Untouched(activeUsers, old(activeUsers), AuthName(first))
      ensures Untouched(timestamps, old(timestamps), AuthName(first))
      ensures IsAuth(first) && Authorised(userDb, first.fields.username, first.fields.password) ==>
        var u := first.fields.username.value;
        && u !in activeUsers
        && joinOrder == Drop(Enrol(old(joinOrder), u), u)
        && old(outbox) + Fanout(Enrol(old(joinOrder), u), old(activeUsers)[u := c], System(JoinNotice(u))) <= outbox
      ensures !(IsAuth(first) && Authorised(userDb, first.fields.username, first.fields.password)) ==>
        && joinOrder == old(joinOrder) && activeUsers == old(activeUsers) && timestamps == old(timestamps)
        && outbox == old(outbox) + (if IsAuth(first) then [Send(c, System(AUTH_FAILED))] else [])
    {
      c := Accept();
      Converse(c, first, rest, times);
      ClosedHasNoSession(joinOrder, activeUsers, handlers, nextConn, c);
    }

    /** The handler of an accepted connection `c`, from its first frame to its end. */
    method Converse(c: ConnId, first: Frame, rest: seq<Frame>, times: seq<int>)
      requires Valid() && c in handlers && handlers[c] == Authenticating && |times| == |rest|
      modifies this
      ensures Valid()
      ensures handlers == old(handlers)[c := Closed] && nextConn == old(nextConn)
      ensures Untouched(activeUsers, old(activeUsers), AuthName(first))
      ensures Untouched(timestamps, old(timestamps), AuthName(first))
      ensures IsAuth(first) && Authorised(userDb, first.fields.username, first.fields.password) ==>
        var u := first.fields.username.value;
        && u !in activeUsers
        && joinOrder == Drop(Enrol(old(joinOrder), u), u)
        && old(outbox) + Fanout(Enrol(old(joinOrder), u), old(activeUsers)[u := c], System(JoinNotice(u))) <= outbox
      ensures !(IsAuth(first) && Authorised(userDb, first.fields.username, first.fields.password)) ==>
        && joinOrder == old(joinOrder) && activeUsers == old(activeUsers) && timestamps == old(timestamps)
        && outbox == old(outbox) + (if IsAuth(first) then [Send(c, System(AUTH_FAILED))] else [])
    {
      var phase := Authenticate(c, first);
      if phase.Active? {
        ghost var active0, stamps0 := activeUsers, timestamps;
        Serve(c, rest, times);
        Overwrite(old(handlers), c, phase, Closed);
        UntouchedTrans(activeUsers, active0, old(activeUsers), AuthName(first));
        UntouchedTrans(timestamps, stamps0, old(timestamps), AuthName(first));
      }
    }
  }
}
