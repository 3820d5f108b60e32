/**
  The Socket.IO handlers of pages/api/socketio_service.ts as pure transitions
  `(state, request) -> (state', emissions)`. Every handler runs to completion
  on the single-threaded event loop, so each one is one atomic step.

  The state has three parts: the credential store (`registeredUsers`), the
  session registry (`connectedUsers`, joined sessions only) and the set of
  transport-level sockets that are currently connected. An emission names the
  exact set of sockets it reaches, following Socket.IO's addressing:
  `socket.emit` and callback replies reach the caller only,
  `socket.broadcast.emit` reaches every other connected socket, `io.emit` and
  `socket.server.emit` reach every connected socket, and
  `io.to(a).to(b).emit` reaches the connected members of rooms `a` and `b`
  (every socket sits in the room named by its own id).
 */
module SessionServer {
  import opened JsString
  import opened Types
  import opened CredentialStore

  /** `connectedUsers`: the joined sessions, keyed by socket id. */
  type Registry = map<SessionId, User>

  datatype ServerState = ServerState(creds: Store, registry: Registry, connected: set<SessionId>)

  /** What the server sends. Callback replies are sent to the caller only,
      like `socket.emit`. */
  datatype ServerEvent =
    | LoginAttemptAcknowledged(userId: SessionId)
    | LoginSuccess(joined: JoinResponse)
    | LoginFailed(reason: string)
    | UserJoined(user: User)
    | UserLeft(user: User)
    | UserListUpdate(users: set<User>)
    | NewMessage(msg: Message)
    | RegisterReply(registered: RegisterResponse)
    | JoinChatReply(joinReply: JoinResponse)

  /** One event and the sockets it reaches. */
  datatype Emission = Emission(to: set<SessionId>, event: ServerEvent)

  /** The outcome of one handler: the new state and what it emitted, in order. */
  datatype Transition = Transition(st: ServerState, out: seq<Emission>)

  /** `joinUserToChat` also answers with a response object. */
  datatype JoinOutcome = JoinOutcome(st: ServerState, out: seq<Emission>, resp: JoinResponse)

  const SessionInvalidMessage := "User session ID is invalid."
  const JoinAfterLoginMessage := "Failed to join chat after login."
  const EmptyUsernameMessage := "Username cannot be empty."

  /** The server at start-up: the seeded store, nobody joined or connected. */
  const Init := ServerState(Seeded, map[], {})

  /** The joined users, as carried by `user_list_update` and join responses. */
  function Users(registry: Registry): set<User>
  {
    registry.Values
  }

  /** The store is well formed and still holds the seeded administrator. */
  predicate CredsValid(creds: Store)
  {
    WellFormed(creds) && "admin" in creds && creds["admin"] == Seeded["admin"]
  }

  /** A joined user as the handlers file it: under its own non-blank id, with
      a trimmed non-empty username. */
  predicate EntryValid(k: SessionId, u: User)
  {
    u.id == k && !IsBlank(k) && u.username != "" && IsTrimmed(u.username)
  }

  /** Every joined session is a well-filed entry and a connected socket. */
  predicate RegistryValid(registry: Registry, connected: set<SessionId>)
  {
    && (forall k :: k in registry ==> EntryValid(k, registry[k]))
    && registry.Keys <= connected
  }

  /** The state invariant. */
  predicate Valid(st: ServerState)
  {
    CredsValid(st.creds) && RegistryValid(st.registry, st.connected)
  }

  lemma InitValid()
    ensures Valid(Init)
  {
    SeededWellFormed();
  }

  // ---------------------------------------------------------------------------
  // Connection

  /** A new socket connects; nothing is emitted until it sends something. */
  function Connect(st: ServerState, sid: SessionId): (r: Transition)
  {
    Transition(st.(connected := st.connected + {sid}), [])
  }

  // ---------------------------------------------------------------------------
  // joinUserToChat

  /** `joinUserToChat(socket, username)`: keyed by the session id alone. A
      blank id is refused; a session already joined under the same name is
      left alone; one joined under another name is renamed in place and the
      list re-broadcast; a new session is added, announced to the other
      sockets, and the list broadcast to all. */
  function Join(st: ServerState, sid: SessionId, username: string): (r: JoinOutcome)
    requires sid in st.connected
    ensures r.st.creds == st.creds && r.st.connected == st.connected
    ensures r.resp.success <==> !IsBlank(sid)
    ensures forall i :: 0 <= i < |r.out| ==> r.out[i].event.UserJoined? || r.out[i].event.UserListUpdate?
    ensures !r.resp.success ==>
              && r.st == st && r.out == []
              && r.resp == JoinResponse(false, Some({}), Some(""), Some(username), Some(SessionInvalidMessage))
    ensures r.resp.success ==>
              && r.st.registry.Keys == st.registry.Keys + {sid}
              && r.st.registry[sid].username == username
              && (forall k :: k in st.registry && k != sid ==> r.st.registry[k] == st.registry[k])
              && r.resp == JoinResponse(true, Some(Users(r.st.registry)), Some(sid), Some(username), None)
    ensures r.resp.success && sid in st.registry && st.registry[sid].username == username ==>
              r.st == st && r.out == []
    ensures r.resp.success && sid in st.registry && st.registry[sid].username != username ==>
              && r.st.registry[sid].id == st.registry[sid].id
              && r.out == [Emission(st.connected, UserListUpdate(Users(r.st.registry)))]
    ensures r.resp.success && sid !in st.registry ==>
              && r.st.registry[sid] == User(sid, username)
              && r.out == [Emission(st.connected - {sid}, UserJoined(User(sid, username))),
                           Emission(st.connected, UserListUpdate(Users(r.st.registry)))]
  {
    if IsBlank(sid) then
      JoinOutcome(st, [], JoinResponse(false, Some({}), Some(""), Some(username), Some(SessionInvalidMessage)))
    else
      var (registry, out) :=
        if sid in st.registry then
          if st.registry[sid].username == username then (st.registry, [])
          else
            var renamed := st.registry[sid := st.registry[sid].(username := username)];
            (renamed, [Emission(st.connected, UserListUpdate(Users(renamed)))])
        else
          var added := st.registry[sid := User(sid, username)];
          (added, [Emission(st.connected - {sid}, UserJoined(User(sid, username))),
                   Emission(st.connected, UserListUpdate(Users(added)))]);
      JoinOutcome(st.(registry := registry), out,
                  JoinResponse(true, Some(Users(registry)), Some(sid), Some(username), None))
  }

  // ---------------------------------------------------------------------------
  // register_user

  /** `register_user`: the store update, answered through the callback. A
      call without a callback is dropped before anything happens. */
  function RegisterUser(st: ServerState, sid: SessionId, username: Option<string>, password: Option<string>,
                        withCallback: bool): (r: Transition)
    requires sid in st.connected
    ensures r.st.registry == st.registry && r.st.connected == st.connected
    ensures !withCallback ==> r.st == st && r.out == []
    ensures withCallback ==>
              && |r.out| == 1 && r.out[0].to == {sid}
              && r.out[0].event == RegisterReply(Register(st.creds, username, password).resp)
              && r.st.creds == Register(st.creds, username, password).creds
  {
    if !withCallback then Transition(st, [])
    else
      var reg := Register(st.creds, username, password);
      Transition(st.(creds := reg.creds), [Emission({sid}, RegisterReply(reg.resp))])
  }

  // ---------------------------------------------------------------------------
  // login_user

  /** The `login_failed` text after a failed join: the join's error when it
      is a non-empty string, else a fallback. */
  function JoinFailureMessage(resp: JoinResponse): (m: string)
    ensures m != ""
    ensures IsTruthy(resp.error) ==> m == resp.error.value
    ensures !IsTruthy(resp.error) ==> m == JoinAfterLoginMessage
  {
    if IsTruthy(resp.error) then resp.error.value else JoinAfterLoginMessage
  }

  /** The event that settles a login attempt: `login_success` or
      `login_failed`. */
  predicate IsLoginVerdict(e: ServerEvent)
  {
    e.LoginSuccess? || e.LoginFailed?
  }

  /** The shape every `login_user` reply has: the acknowledgement first,
      exactly one verdict and it last, everything addressed to the caller at
      the two ends. */
  predicate AckThenVerdict(out: seq<Emission>, sid: SessionId)
  {
    && |out| >= 2
    && out[0] == Emission({sid}, LoginAttemptAcknowledged(sid))
    && out[|out| - 1].to == {sid}
    && IsLoginVerdict(out[|out| - 1].event)
    && (forall i :: 0 <= i < |out| - 1 ==> !IsLoginVerdict(out[i].event))
  }

  /** The last event of a non-empty output. */
  function LastEvent(out: seq<Emission>): ServerEvent
    requires out != []
  {
    out[|out| - 1].event
  }

  lemma AckThenVerdictFrame(sid: SessionId, middle: seq<Emission>, verdict: ServerEvent)
    requires IsLoginVerdict(verdict)
    requires forall i :: 0 <= i < |middle| ==> !IsLoginVerdict(middle[i].event)
    ensures var out := [Emission({sid}, LoginAttemptAcknowledged(sid))] + middle + [Emission({sid}, verdict)];
            && AckThenVerdict(out, sid)
            && out[1..|out| - 1] == middle
            && LastEvent(out) == verdict
  {
    var out := [Emission({sid}, LoginAttemptAcknowledged(sid))] + middle + [Emission({sid}, verdict)];
    assert out[1..|out| - 1] == middle;
    forall i | 0 <= i < |out| - 1
      ensures !IsLoginVerdict(out[i].event)
    {
      if i > 0 { assert out[i] == middle[i - 1]; }
    }
  }

  /** `login_user`: acknowledge at once, validate, then join under the stored
      (original-case) username and report the join result to the caller. */
  function Login(st: ServerState, sid: SessionId, username: Option<string>, password: Option<string>): (r: Transition)
    requires sid in st.connected
    ensures r.st.creds == st.creds && r.st.connected == st.connected
    ensures AckThenVerdict(r.out, sid)
    ensures LastEvent(r.out).LoginSuccess? <==> CheckLogin(st.creds, username, password).Accepted? && !IsBlank(sid)
    ensures CheckLogin(st.creds, username, password).Rejected? ==>
              && r.st == st
              && r.out == [Emission({sid}, LoginAttemptAcknowledged(sid)),
                           Emission({sid}, LoginFailed(CheckLogin(st.creds, username, password).message))]
    ensures CheckLogin(st.creds, username, password).Accepted? ==>
              var j := Join(st, sid, CheckLogin(st.creds, username, password).cred.username);
              && r.st == j.st
              && r.out[1..|r.out| - 1] == j.out
              && LastEvent(r.out) == (if j.resp.success then LoginSuccess(j.resp) else LoginFailed(JoinFailureMessage(j.resp)))
  {
    var ack := Emission({sid}, LoginAttemptAcknowledged(sid));
    match CheckLogin(st.creds, username, password)
    case Rejected(message) =>
      AckThenVerdictFrame(sid, [], LoginFailed(message));
      assert [ack] + [] + [Emission({sid}, LoginFailed(message))] == [ack, Emission({sid}, LoginFailed(message))];
      Transition(st, [ack, Emission({sid}, LoginFailed(message))])
    case Accepted(cred) =>
      var j := Join(st, sid, cred.username);
      var verdict := if j.resp.success then LoginSuccess(j.resp) else LoginFailed(JoinFailureMessage(j.resp));
      AckThenVerdictFrame(sid, j.out, verdict);
      Transition(j.st, [ack] + j.out + [Emission({sid}, verdict)])
  }

  // ---------------------------------------------------------------------------
  // join_chat

  /** `join_chat`: a blank name is refused; otherwise the trimmed name is
      joined with no credential check, and the join result is the reply. */
  function JoinChat(st: ServerState, sid: SessionId, username: Option<string>, withCallback: bool): (r: Transition)
    requires sid in st.connected
    ensures r.st.creds == st.creds && r.st.connected == st.connected
    ensures !withCallback ==> r.st == st && r.out == []
    ensures withCallback && !Present(username) ==>
              && r.st == st
              && r.out == [Emission({sid}, JoinChatReply(JoinResponse(false, None, None, username, Some(EmptyUsernameMessage))))]
    ensures withCallback && Present(username) ==>
              var j := Join(st, sid, Trim(username.value));
              && r.st == j.st
              && r.out == j.out + [Emission({sid}, JoinChatReply(j.resp))]
  {
    if !withCallback then Transition(st, [])
    else if !Present(username) then
      Transition(st, [Emission({sid}, JoinChatReply(JoinResponse(false, None, None, username, Some(EmptyUsernameMessage))))])
    else
      var j := Join(st, sid, Trim(username.value));
      Transition(j.st, j.out + [Emission({sid}, JoinChatReply(j.resp))])
  }

  // ---------------------------------------------------------------------------
  // send_message

  /** The sockets a message reaches: the recipient's room and the sender's
      own room for a direct message, everyone for a group message. */
  function Audience(connected: set<SessionId>, sid: SessionId, recipientId: Option<SessionId>): (to: set<SessionId>)
    requires sid in connected
    ensures to <= connected
    ensures sid in to
    ensures IsTruthy(recipientId) ==> forall s :: s in to <==> s == sid || (s == recipientId.value && s in connected)
    ensures !IsTruthy(recipientId) ==> to == connected
  {
    if IsTruthy(recipientId) then ({recipientId.value} * connected) + {sid} else connected
  }

  /** `send_message`: only a joined sender's message goes out, stamped with
      the sender's id and registered name and a fresh id; the rest is copied
      from the payload. */
  function SendMessage(st: ServerState, sid: SessionId, data: SendPayload, freshId: string): (r: Transition)
    requires sid in st.connected
    ensures r.st == st
    ensures sid !in st.registry ==> r.out == []
    ensures sid in st.registry ==>
              && |r.out| == 1
              && r.out[0].event == NewMessage(Message(freshId, sid, st.registry[sid].username, data.recipientId, data.text, data.timestamp))
              && r.out[0].to == Audience(st.connected, sid, data.recipientId)
  {
    if sid in st.registry then
      var m := Message(freshId, sid, st.registry[sid].username, data.recipientId, data.text, data.timestamp);
      Transition(st, [Emission(Audience(st.connected, sid, data.recipientId), NewMessage(m))])
    else Transition(st, [])
  }

  // ---------------------------------------------------------------------------
  // disconnect

  /** `disconnect`: the socket has already left every room when the handler
      runs; a joined session is dropped and announced to the remaining
      sockets, first as `user_left`, then as the new list. */
  function Disconnect(st: ServerState, sid: SessionId): (r: Transition)
    requires sid in st.connected
    ensures r.st.creds == st.creds
    ensures r.st.connected == st.connected - {sid}
    ensures r.st.registry == st.registry - {sid}
    ensures sid !in st.registry ==> r.out == []
    ensures sid in st.registry ==>
              r.out == [Emission(st.connected - {sid}, UserLeft(st.registry[sid])),
                        Emission(st.connected - {sid}, UserListUpdate(Users(st.registry - {sid})))]
  {
    var connected := st.connected - {sid};
    if sid in st.registry then
      var registry := st.registry - {sid};
      Transition(ServerState(st.creds, registry, connected),
                 [Emission(connected, UserLeft(st.registry[sid])),
                  Emission(connected, UserListUpdate(Users(registry)))])
    else Transition(st.(connected := connected), [])
  }

  // ---------------------------------------------------------------------------
  // Dispatch

  /** What a socket can ask of the server. */
  datatype Request =
    | ConnectSocket
    | RegisterUserRequest(username: Option<string>, password: Option<string>, withCallback: bool)
    | LoginUserRequest(username: Option<string>, password: Option<string>)
    | JoinChatRequest(username: Option<string>, withCallback: bool)
    | SendMessageRequest(data: SendPayload, freshId: string)
    | DisconnectSocket

  /** One event-loop step. Only a connected socket's events reach the
      handlers; anything else from an unknown socket is dropped. */
  function Handle(st: ServerState, sid: SessionId, req: Request): (r: Transition)
    ensures !req.ConnectSocket? && sid !in st.connected ==> r == Transition(st, [])
    ensures req.ConnectSocket? ==> r.st.connected == st.connected + {sid}
    ensures req.DisconnectSocket? ==> r.st.connected == st.connected - {sid}
    ensures !req.ConnectSocket? && !req.DisconnectSocket? ==> r.st.connected == st.connected
    ensures !req.RegisterUserRequest? ==> r.st.creds == st.creds
  {
    if req.ConnectSocket? then Connect(st, sid)
    else if sid !in st.connected then Transition(st, [])
    else
      match req
      case RegisterUserRequest(u, p, cb) => RegisterUser(st, sid, u, p, cb)
      case LoginUserRequest(u, p) => Login(st, sid, u, p)
      case JoinChatRequest(u, cb) => JoinChat(st, sid, u, cb)
      case SendMessageRequest(data, freshId) => SendMessage(st, sid, data, freshId)
      case DisconnectSocket => Disconnect(st, sid)
  }

  /** A run of events, each from some socket. */
  function Run(st: ServerState, events: seq<(SessionId, Request)>): (r: ServerState)
    decreases |events|
  {
    if events == [] then st
    else Run(Handle(st, events[0].0, events[0].1).st, events[1..])
  }

  // ---------------------------------------------------------------------------
  // The invariant holds throughout

  lemma JoinKeepsValid(st: ServerState, sid: SessionId, username: string)
    requires Valid(st) && sid in st.connected
    requires username != "" && IsTrimmed(username)
    ensures Valid(Join(st, sid, username).st)
  {
    var r := Join(st, sid, username).st.registry;
    forall k | k in r
      ensures EntryValid(k, r[k])
    {
      if k != sid { assert r[k] == st.registry[k]; }
    }
  }

  lemma RegisterUserKeepsValid(st: ServerState, sid: SessionId, username: Option<string>, password: Option<string>, withCallback: bool)
    requires Valid(st) && sid in st.connected
    ensures Valid(RegisterUser(st, sid, username, password, withCallback).st)
  {
    RegisterKeepsWellFormed(st.creds, username, password);
  }

  lemma LoginKeepsValid(st: ServerState, sid: SessionId, username: Option<string>, password: Option<string>)
    requires Valid(st) && sid in st.connected
    ensures Valid(Login(st, sid, username, password).st)
  {
    var c := CheckLogin(st.creds, username, password);
    if c.Accepted? {
      JoinKeepsValid(st, sid, c.cred.username);
    }
  }

  lemma JoinChatKeepsValid(st: ServerState, sid: SessionId, username: Option<string>, withCallback: bool)
    requires Valid(st) && sid in st.connected
    ensures Valid(JoinChat(st, sid, username, withCallback).st)
  {
    if withCallback && Present(username) {
      JoinKeepsValid(st, sid, Trim(username.value));
    }
  }

  lemma DisconnectKeepsValid(st: ServerState, sid: SessionId)
    requires Valid(st) && sid in st.connected
    ensures Valid(Disconnect(st, sid).st)
  {
  }

  lemma HandleKeepsValid(st: ServerState, sid: SessionId, req: Request)
    requires Valid(st)
    ensures Valid(Handle(st, sid, req).st)
  {
    if !req.ConnectSocket? && sid in st.connected {
      match req
      case RegisterUserRequest(u, p, cb) => RegisterUserKeepsValid(st, sid, u, p, cb);
      case LoginUserRequest(u, p) => LoginKeepsValid(st, sid, u, p);
      case JoinChatRequest(u, cb) => JoinChatKeepsValid(st, sid, u, cb);
      case SendMessageRequest(_, _) =>
      case DisconnectSocket => DisconnectKeepsValid(st, sid);
    }
  }

  /** Every state the server reaches from start-up satisfies the invariant. */
  lemma {:induction false} RunKeepsValid(st: ServerState, events: seq<(SessionId, Request)>)
    requires Valid(st)
    ensures Valid(Run(st, events))
    decreases |events|
  {
    if events != [] {
      HandleKeepsValid(st, events[0].0, events[0].1);
      RunKeepsValid(Handle(st, events[0].0, events[0].1).st, events[1..]);
    }
  }

  lemma ReachableValid(events: seq<(SessionId, Request)>)
    ensures Valid(Run(Init, events))
  {
    InitValid();
    RunKeepsValid(Init, events);
  }
}
