# Chat server connection logic, in Dafny

A model of the connection logic of a small WebSocket chat server. It covers:

- the fixed credential table `USER_DB`;
- the session registry `active_users` (username -> connection);
- the per-user rate-limit table `user_message_timestamps`;
- the sliding-window limiter `rate_limited`;
- `broadcast_message`;
- the dispatcher `handle_message`;
- the connection handler `handle_connection`: authentication on the first frame, the message loop, and the exit cleanup in its `finally` block.

## Files

- `wire.dfy` (module `Wire`): inbound frames and outbound messages, plus the fixed texts.
  - A frame is either `Malformed` or an object that carries the optional keys the server reads.
    `Malformed` stands for text that is not JSON, or JSON that is not an object.
  - An outbound message is `system`, `chat` or `heartbeat_ack`.
  - One send is a (connection, message) pair.
- `rate_limit.dfy` (module `RateLimit`): the limiter as pure functions over one user's stored list.
  - `Kept` is the window filter of server.py:32.
  - `Recorded` is that filter followed by the append (server.py:32-35).
  - `Limited` is the verdict (server.py:36-38). `LimitedIffCrowded` states what it means.
  - `WithinIndices` is an independent count of in-window positions.
  - `Verdicts` and `History` run the limiter over a sequence of calls.
- `registry.dfy` (module `Registry`): `active_users` as an ordered dictionary.
  - A Python dict iterates in insertion order. The registry is therefore a map plus the order of its keys.
  - `Enrol` models `active_users[u] = ws` (server.py:88): a present key keeps its place, and a new key goes last. `EnrolKeepsPlaces` and `EnrolWellFormed` state this.
  - `Drop` models `del active_users[u]`.
  - `Fanout` is the list of sends one broadcast makes: one per key, in key order.
- `server.dfy` (module `ChatServer`): the class `Server`. Its fields are:
  - `userDb`, the credential table;
  - `activeUsers` and `joinOrder`, the registry and its key order;
  - `timestamps`, the rate table;
  - `outbox`, every send made so far;
  - `handlers`, the phase of each accepted connection's handler (`Authenticating`, `Active(u)` or `Closed`);
  - `nextConn`, the identity the next accepted connection gets.

  Four definitions in this module are used by the method contracts:
  - `Stored` is `user_message_timestamps.get(username, [])` (server.py:29);
  - `IsAuth` is the first-frame test `auth_msg.get("type") == "auth"` (server.py:79);
  - `Authorised` is the credential test `username in USER_DB and USER_DB[username] == password` (server.py:86);
  - `AuthName` is the username the handler has bound once its first frame is read (server.py:82). It is none when that frame is not an `auth` object.

  `Authenticate` states what `IsAuth` and `Authorised` mean, and `RateLimited` what `Stored` means. `Converse` and `HandleConnection` use `AuthName` to say which entries may change.

  There is one method per step of a handler. `HandleConnection` runs one connection from accept to close. `Valid()` (see `Coherent`) is required and kept by every method that changes the registry or the handlers. `RateLimited` and `Broadcast` leave every field it reads untouched. `Valid()` says:
  - the key order lists each registered name exactly once;
  - every registered name points to a live handler that logged in under that name;
  - every connection identity handed out is below `nextConn`.

Time is an integer parameter `now`, and message arrival times are an explicit sequence.

## Behaviour of the code worth knowing

- There is no duplicate-login rejection. A second login under a name overwrites the registry entry (server.py:88). The old connection keeps running under that name.
  - Replies to either connection then go to the newer connection.
  - When the older connection exits, its cleanup removes the name. The newer session is then unregistered too (server.py:115-116).
  - `Exit` states this: it removes the name whichever connection it points to.
- Heartbeats are rate-limited like every other message. The check at server.py:49 runs before any dispatch.
- The heartbeat reply is `{type: heartbeat_ack, message: "pong"}`. It carries no timestamp.
- Rate records are never deleted. `Disconnect` leaves `timestamps` as it was.
- A first frame that is not an `auth` object closes the connection without any reply (server.py:79-80, 111-112).
- A failed login sends "Authentication failed." to the failing connection. If the name it gave is online, it also evicts that session (see the Findings table).
- If a user has no registry entry when the limiter fires, or when a heartbeat must be answered, the `KeyError` ends that user's handler (server.py:54, 72). `HandleMessage` reports this as `raised`.
- A frame in the loop that is not a JSON object ends the handler. The exit cleanup then runs (server.py:106, 111-121).

## Model

| member | source | states |
|---|---|---|
| RateLimit.Kept | server.py:32 | keeps exactly the stored timestamps with `now - t < WINDOW_SECONDS`, never more than were stored |
| RateLimit.Recorded | server.py:32-35 | the stored list after a call: every entry is inside the window at `now`, and the last entry is `now` |
| RateLimit.KeptCount | server.py:32 | the pruned list is as long as the number of in-window positions of the stored list |
| RateLimit.LimitedIffCrowded | server.py:32-38 | a call is limited exactly when the in-window timestamps plus the new one exceed MAX_MESSAGES = 5 |
| RateLimit.KeptAll | server.py:32 | pruning removes nothing when every timestamp is in the window |
| RateLimit.KeptNone | server.py:32 | pruning removes everything when no timestamp is in the window |
| RateLimit.KeptIsSuffix | server.py:32 | on a list in clock order, what pruning keeps is a suffix of the list |
| RateLimit.Verdicts | server.py:26-38 | successive calls give one verdict each |
| RateLimit.BurstStep | server.py:32-35 | the first call of a burst on recent history prunes nothing and stores its time, and the rest is again such a burst |
| RateLimit.BurstStoresAll | server.py:32-35 | in a burst every call's time is stored, rejected calls included |
| RateLimit.BurstVerdicts | server.py:32-38 | the j-th call of a burst is limited exactly when the stored count plus j + 1 exceeds MAX_MESSAGES |
| RateLimit.BurstAfterQuiet | server.py:26-38 | after a quiet spell, the first five calls of a burst pass, every later one is limited, and the burst's times are all that is stored |
| Registry.EnrolWellFormed | server.py:88 | assigning a connection to a name keeps each registered name listed exactly once in key order |
| Registry.EnrolKeepsPlaces | server.py:88 | assigning to a name keeps existing names in their places, and a new name goes last |
| Registry.Drop | server.py:116 | deleting a name removes exactly that name from the key order, keeps the rest unique, and shortens the order by one if the name was there |
| Registry.DropAt | server.py:116 | deleting a registered name removes exactly its position, and the remaining names keep their relative order |
| Registry.DropAbsent | server.py:115-116 | deleting a name that is not registered changes nothing |
| Registry.EnrolThenDrop | server.py:88-116 | a new name that registers and is then deleted leaves the registry and its key order exactly as before |
| Registry.Fanout | server.py:40-43 | a broadcast makes one send per registered name |
| Registry.FanoutOncePerSession | server.py:40-43 | a broadcast reaches every registered connection exactly once and no other, and each send carries the broadcast message |
| ChatServer.FailedLoginAsWritten | server.py:94-121 | a failed login sends "Authentication failed." first, and the registry stays well formed |
| ChatServer.FailedLoginEvictsSession | server.py:94-121 | a failed login naming an online user removes that user from the registry. After the failure notice, there is one send per remaining name. Every remaining session gets the leave notice, every send carries it, and none goes to any other connection |
| ChatServer.RegisterCoherent | server.py:86-88 | registering an authenticating handler under its name keeps the tables coherent |
| ChatServer.UnregisterCoherent | server.py:115-116 | unregistering a name keeps the tables coherent |
| ChatServer.CloseCoherent | server.py:113-121 | a handler may finish once its name, if it has one, is no longer registered |
| ChatServer.ClosedHasNoSession | server.py:113-121 | no registered name points to a finished handler |
| ChatServer.Server.constructor | server.py:8-20 | the credential table is USER_DB, and the registry, rate table and outbox start empty |
| ChatServer.Server.SessionsInjective | server.py:86-88 | no connection is registered under two names |
| ChatServer.Server.Accept | server.py:74-77 | a new connection gets a fresh identity and a handler waiting for its first frame |
| ChatServer.Server.RateLimited | server.py:26-38 | stores the pruned list plus `now` for `u` whatever the verdict, changes no other user's list, and is limited exactly when the stored list exceeds MAX_MESSAGES |
| ChatServer.Server.Broadcast | server.py:40-43 | the loop appends one send per registered name, in key order, and changes nothing else |
| ChatServer.Server.Cleanup | server.py:113-121 | if `u` is registered, removes it and sends one leave notice to each remaining session; otherwise changes nothing; tables stay coherent |
| ChatServer.Server.HandleMessage | server.py:45-72 | records the call in the rate table first, whatever the type. When limited, exactly one warning goes to the connection registered under `u`. Otherwise a `chat` is broadcast with the text defaulting to "", a `heartbeat` gets exactly one "pong" to that connection, and any other type sends nothing. The `KeyError` case is reported and sends nothing |
| ChatServer.Server.Authenticate | server.py:76-102 | succeeds exactly when the first frame is `auth` and its username and password match USER_DB. On success the name is registered to the connection and one join notice goes to every session. On failure the registry is unchanged and the only send is "Authentication failed." (none for a non-`auth` frame). Only the entry for the named user can change |
| ChatServer.Server.Refuse | server.py:94-102 | a failed login sends "Authentication failed." to the connection and finishes its handler |
| ChatServer.Server.Login | server.py:86-93 | registers the connection under `u`, keeping the key order, and sends the join notice to every session, the new one included |
| ChatServer.Server.Close | server.py:100-102 | the handler is finished; the tables stay coherent |
| ChatServer.Server.Receive | server.py:105-107 | a frame that is not an object runs the exit cleanup. When the handler ends, the key order is the old one with the handler's name deleted. An object is dispatched as HandleMessage states, with the same sends. The handler ends exactly when its user is not registered and the call is limited or a heartbeat (the KeyError), and then nothing is sent. A finished handler's name is not registered. Only the handler's own user's entries change |
| ChatServer.Server.Exit | server.py:113-121 | the handler's name is no longer registered, whichever connection it pointed to. A leave notice goes out exactly when it was registered. No other entry changes |
| ChatServer.Server.Disconnect | server.py:109-121 | a handler still authenticating cleans up nothing. An authenticated one runs the exit cleanup. The rate table is left unchanged |
| ChatServer.Server.Serve | server.py:104-121 | the message loop ends with the handler finished and its user's name no longer registered. The key order is the old one with that name deleted. Sends are only appended. Only the entries keyed by the handler's user change |
| ChatServer.Server.Converse | server.py:76-121 | one handler from first frame to end. After a successful login, the join notice to every session is sent first. At the end the name is unregistered, and the key order is the old one with the name enrolled and then deleted. After a failed first frame, the registry and rate table are unchanged and the only send is "Authentication failed." (none for a non-`auth` frame). Only the entries keyed by the name in the first frame change |
| ChatServer.Server.HandleConnection | server.py:74-121 | a connection handled on its own ends with its handler finished and no session pointing at it. It has the same login, failure and cleanup outcomes as Converse, and only the entries for the name in its first frame change |

## Left out

- The client program is not part of this model. It is a terminal user interface built from I/O.
- TLS setup, certificate loading and the WebSocket serve loop (server.py:123-136) are calls into libraries.
- JSON encoding and decoding are calls into a library. Frames and messages are datatypes instead. Only string-valued keys are modelled, so a JSON `null` or a number in a key the server reads is not represented.
- Handlers of different connections interleave at every `await`. The model runs one handler step at a time against the shared tables. So a registry change during a broadcast's iteration, which Python reports as an error, is not modelled.
- `time.time()` returns a float. Time is an integer parameter `now`.
- Exception logging (server.py:111-112) prints to the console. Only its effect, that the handler ends and the cleanup runs, is modelled.
- Every send in the model succeeds. A send on a closed connection raises `ConnectionClosed` and ends the sending handler. That can happen to a broadcast (server.py:43), the rate-limit warning (server.py:54), the pong (server.py:72) or the failure notice (server.py:100). It is not modelled in ChatServer.Server.Broadcast, ChatServer.Server.HandleMessage, ChatServer.Server.Refuse, or the methods that call them.
- ChatServer.Server.Authenticate: on a failed login it follows the corrected behaviour in the Findings table and leaves the registry unchanged. The code as written is modelled by ChatServer.FailedLoginAsWritten.
- ChatServer.Server.Converse: it runs Authenticate, so a failed login leaves the registry unchanged, as corrected in the Findings table, instead of evicting an online session under the same name.
- ChatServer.Server.HandleConnection: it runs Converse, so the same corrected failed-login behaviour applies.
- ChatServer.Server.Serve: it states that sends are only appended, but not the exact sequence of sends over the whole loop. It also does not state the user's stored timestamps after the loop: one call to the limiter for each object frame handled before the handler ends. Both are what Receive states frame by frame, composed over the frames.
- `websocket.close()` after a failed login is the end of the handler, `Closed`. The transport-level close handshake is not modelled.
- File transfer, a user list, duplicate-login rejection and a heartbeat exemption from the limiter do not exist in the server code, so they are not modelled.

## Findings

| source | as written | input that shows it | evidently intended | confidence | as-written member | corrected member |
|---|---|---|---|---|---|---|
| server.py:82-121 | `username` is bound before the password check. The failed-login `return` then runs the `finally` block, which deletes `active_users[username]` if that name is online and broadcasts that the user left | eve is logged in on connection 1. Connection 2 sends `{"type": "auth", "username": "eve", "password": "x"}`. Eve's session is unregistered and everyone is told "eve left the chat." | a failed login changes no session and sends only "Authentication failed." to the failing connection | high (not executed) | ChatServer.FailedLoginEvictsSession | ChatServer.Server.Authenticate |
