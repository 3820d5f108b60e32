/**
  Properties of the session server that relate several handler calls, or a
  handler call and the state invariant.
 */
module ServerProperties {
  import opened JsString
  import opened Types
  import opened CredentialStore
  import opened SessionServer

  // ---------------------------------------------------------------------------
  // The user list

  /** Every entry is filed under its own id. */
  predicate IdsMatch(registry: Registry)
  {
    forall k :: k in registry ==> registry[k].id == k
  }

  lemma ValidIdsMatch(st: ServerState)
    requires Valid(st)
    ensures IdsMatch(st.registry)
  {
  }

  /** Since every entry is filed under its own id, no two sessions share a
      user record: the broadcast list has one entry per joined session. */
  lemma {:induction false} UsersCount(registry: Registry)
    requires IdsMatch(registry)
    ensures |Users(registry)| == |registry|
    decreases |registry|
  {
    if registry != map[] {
      var k :| k in registry;
      var rest := registry - {k};
      UsersCount(rest);
      UsersRemove(registry, k);
    }
  }

  /** Removing one session removes exactly its record from the list. */
  lemma UsersRemove(registry: Registry, k: SessionId)
    requires IdsMatch(registry) && k in registry
    ensures IdsMatch(registry - {k})
    ensures Users(registry) == Users(registry - {k}) + {registry[k]}
    ensures registry[k] !in Users(registry - {k})
    ensures |registry - {k}| == |registry| - 1
  {
    var rest := registry - {k};
    forall u | u in Users(rest)
      ensures u != registry[k] && u in Users(registry)
    {
      var k' :| k' in rest && rest[k'] == u;
      assert registry[k'] == u;
    }
    forall u | u in Users(registry)
      ensures u in Users(rest) || u == registry[k]
    {
      var k' :| k' in registry && registry[k'] == u;
      if k' != k { assert rest[k'] == u; }
    }
  }

  /** A joined session's user record is in the list, and only there under
      its own id. */
  lemma UsersById(st: ServerState, sid: SessionId)
    requires IdsMatch(st.registry)
    ensures sid in st.registry ==> st.registry[sid] in Users(st.registry)
    ensures forall u :: u in Users(st.registry) ==> u.id in st.registry && st.registry[u.id] == u
  {
  }

  // ---------------------------------------------------------------------------
  // Join

  /** Joining twice under the same name changes and emits nothing the second
      time and answers the same. */
  lemma JoinIdempotent(st: ServerState, sid: SessionId, username: string)
    requires sid in st.connected
    ensures var first := Join(st, sid, username);
            var second := Join(first.st, sid, username);
            && second.st == first.st
            && second.out == []
            && second.resp == first.resp
  {
  }

  /** A session that joins and then disconnects leaves the registry as it
      found it. */
  lemma JoinThenDisconnect(st: ServerState, sid: SessionId, username: string)
    requires sid in st.connected && sid !in st.registry && !IsBlank(sid)
    ensures var d := Disconnect(Join(st, sid, username).st, sid);
            && d.st.registry == st.registry
            && d.st.connected == st.connected - {sid}
            && LastList(d.out) == Users(st.registry)
  {
    var j := Join(st, sid, username);
    var back := j.st.registry - {sid};
    assert back.Keys == st.registry.Keys;
    assert forall k :: k in back ==> back[k] == st.registry[k];
    assert back == st.registry;
  }

  /** The other connected sockets hear of a new session's arrival and of its
      departure, under the same user record. */
  lemma JoinThenDisconnectAnnounced(st: ServerState, sid: SessionId, username: string)
    requires sid in st.connected && sid !in st.registry && !IsBlank(sid)
    ensures var j := Join(st, sid, username);
            var d := Disconnect(j.st, sid);
            && j.out[0] == Emission(st.connected - {sid}, UserJoined(User(sid, username)))
            && d.out[0] == Emission(st.connected - {sid}, UserLeft(User(sid, username)))
  {
  }

  /** The user list carried by the last emission of a non-empty output. */
  function LastList(out: seq<Emission>): set<User>
    requires out != [] && out[|out| - 1].event.UserListUpdate?
  {
    out[|out| - 1].event.users
  }

  /** Join is keyed by the session alone: two sessions may join under the
      same username and both are listed. */
  lemma SameNameTwoSessions(st: ServerState, a: SessionId, b: SessionId, username: string)
    requires a in st.connected && b in st.connected
    requires a != b && a !in st.registry && b !in st.registry
    requires !IsBlank(a) && !IsBlank(b)
    ensures var s1 := Join(st, a, username).st;
            var s2 := Join(s1, b, username);
            && s2.resp.success
            && User(a, username) in Users(s2.st.registry)
            && User(b, username) in Users(s2.st.registry)
            && |s2.st.registry| == |st.registry| + 2
  {
    var s1 := Join(st, a, username).st;
    JoinNewSession(st, a, username);
    JoinNewSession(s1, b, username);
    var r2 := Join(s1, b, username).st.registry;
    assert r2 == st.registry[a := User(a, username)][b := User(b, username)];
    assert r2[a] == User(a, username) && r2[b] == User(b, username);
  }

  /** A new session's join adds exactly its own entry. */
  lemma JoinNewSession(st: ServerState, sid: SessionId, username: string)
    requires sid in st.connected && sid !in st.registry && !IsBlank(sid)
    ensures Join(st, sid, username).resp.success
    ensures Join(st, sid, username).st.registry == st.registry[sid := User(sid, username)]
  {
  }

  /** A rename keeps the session's id and the list size, and tells everyone
      once. */
  lemma RenameInPlace(st: ServerState, sid: SessionId, username: string)
    requires IdsMatch(st.registry) && sid in st.connected && sid in st.registry && !IsBlank(sid)
    requires st.registry[sid].username != username
    ensures var j := Join(st, sid, username);
            && j.st.registry[sid] == User(sid, username)
            && |j.st.registry| == |st.registry|
            && |j.out| == 1 && j.out[0].to == st.connected
            && j.out[0].event.UserListUpdate?
            && User(sid, username) in j.out[0].event.users
            && st.registry[sid] !in j.out[0].event.users
  {
    var j := Join(st, sid, username);
    assert sid in st.connected;
    assert j.st.registry.Keys == st.registry.Keys;
    assert j.st.registry[sid] == User(sid, username);
    forall u | u in Users(j.st.registry)
      ensures u != st.registry[sid]
    {
      var k :| k in j.st.registry && j.st.registry[k] == u;
      if k != sid {
        assert u == st.registry[k];
        assert u.id == k;
      }
    }
  }

  // ---------------------------------------------------------------------------
  // Login

  /** A failed login, whatever the reason, leaves the whole state unchanged. */
  lemma LoginFailureChangesNothing(st: ServerState, sid: SessionId, username: Option<string>, password: Option<string>)
    requires sid in st.connected
    requires LastEvent(Login(st, sid, username, password).out).LoginFailed?
    ensures Login(st, sid, username, password).st == st
  {
  }

  /** A successful login joins the session under the name as registered,
      not as typed, and tells the caller so. */
  lemma LoginJoinsStoredName(st: ServerState, sid: SessionId, username: Option<string>, password: Option<string>)
    requires IdsMatch(st.registry) && sid in st.connected
    requires LastEvent(Login(st, sid, username, password).out).LoginSuccess?
    ensures var r := Login(st, sid, username, password);
            var stored := st.creds[Key(username.value)].username;
            && r.st.registry[sid] == User(sid, stored)
            && LastEvent(r.out).joined.username == Some(stored)
            && LastEvent(r.out).joined.currentUserId == Some(sid)
            && User(sid, stored) in LastEvent(r.out).joined.users.value
  {
    var stored := st.creds[Key(username.value)].username;
    var j := Join(st, sid, stored);
    assert j.st.registry[sid] == User(sid, stored);
    assert User(sid, stored) in Users(j.st.registry);
  }

  /** Registering and then logging in on the same socket, with the name in
      any letter case or padding, joins the session under the name as first
      registered. */
  lemma RegisterThenLoginJoins(st: ServerState, sid: SessionId, u: string, p: string, typed: string)
    requires IdsMatch(st.registry) && sid in st.connected && !IsBlank(sid)
    requires Register(st.creds, Some(u), Some(p)).resp.success
    requires Key(typed) == Key(u) && !IsBlank(typed)
    ensures var s1 := RegisterUser(st, sid, Some(u), Some(p), true).st;
            var s2 := Login(s1, sid, Some(typed), Some(p));
            && LastEvent(s2.out).LoginSuccess?
            && s2.st.registry[sid] == User(sid, Trim(u))
  {
    var s1 := RegisterUser(st, sid, Some(u), Some(p), true).st;
    RegisterThenLogin(st.creds, u, p, typed, p);
    LoginJoinsStoredName(s1, sid, Some(typed), Some(p));
  }

  /** Accepted credentials on a non-blank session always end in
      `login_success`, with the state the join under the stored name gives. */
  lemma AcceptedLoginSucceeds(st: ServerState, sid: SessionId, username: Option<string>, password: Option<string>, cred: Cred)
    requires sid in st.connected && !IsBlank(sid)
    requires CheckLogin(st.creds, username, password) == Accepted(cred)
    ensures LastEvent(Login(st, sid, username, password).out).LoginSuccess?
    ensures Login(st, sid, username, password).st == Join(st, sid, cred.username).st
  {
  }

  /** Accepted credentials on a blank session id fail only at the join, whose
      error is always "User session ID is invalid.": the caller gets that
      text, never the fallback, and nothing changes. */
  lemma AcceptedLoginOnBlankSession(st: ServerState, sid: SessionId, username: Option<string>, password: Option<string>)
    requires sid in st.connected && IsBlank(sid)
    requires CheckLogin(st.creds, username, password).Accepted?
    ensures Login(st, sid, username, password).st == st
    ensures LastEvent(Login(st, sid, username, password).out) == LoginFailed(SessionInvalidMessage)
  {
    assert SessionInvalidMessage[0] == 'U';
  }

  /** From start-up: a socket connects and logs in as "ADMIN" with the seeded
      password; it is the only user listed, as "Admin". */
  lemma AdminSession(sid: SessionId)
    requires !IsBlank(sid)
    ensures var s1 := Connect(Init, sid).st;
            var s2 := Login(s1, sid, Some("ADMIN"), Some("Ensure12@"));
            && LastEvent(s2.out).LoginSuccess?
            && s2.st.registry == map[sid := User(sid, "Admin")]
  {
    var s1 := Connect(Init, sid).st;
    AdminLogsIn();
    AcceptedLoginSucceeds(s1, sid, Some("ADMIN"), Some("Ensure12@"), Cred("Admin", "Ensure12@"));
    var j := Join(s1, sid, "Admin");
    assert j.st.registry.Keys == {sid};
  }

  // ---------------------------------------------------------------------------
  // join_chat

  /** `join_chat` checks no credentials: any non-blank name joins, registered
      or not, and the session is listed under the trimmed name. */
  lemma JoinChatWithoutCredentials(st: ServerState, sid: SessionId, username: string)
    requires IdsMatch(st.registry) && sid in st.connected && !IsBlank(sid) && !IsBlank(username)
    ensures var r := JoinChat(st, sid, Some(username), true);
            && r.st.registry[sid] == User(sid, Trim(username))
            && r.out[|r.out| - 1] == Emission({sid}, JoinChatReply(Join(st, sid, Trim(username)).resp))
            && Join(st, sid, Trim(username)).resp.success
  {
  }

  // ---------------------------------------------------------------------------
  // send_message

  /** A group message from a joined session reaches every joined session. */
  lemma GroupMessageReachesJoined(st: ServerState, sid: SessionId, data: SendPayload, freshId: string)
    requires sid in st.connected && sid in st.registry && !IsTruthy(data.recipientId)
    requires st.registry.Keys <= st.connected
    ensures st.registry.Keys <= SendMessage(st, sid, data, freshId).out[0].to
  {
  }

  /** A direct message reaches its sender and, if connected, its recipient,
      and nobody else. */
  lemma DirectMessageReachesPair(st: ServerState, sid: SessionId, data: SendPayload, freshId: string, other: SessionId)
    requires sid in st.connected && sid in st.registry && IsTruthy(data.recipientId)
    requires other != sid && other != data.recipientId.value
    ensures var to := SendMessage(st, sid, data, freshId).out[0].to;
            && sid in to
            && (data.recipientId.value in st.connected ==> data.recipientId.value in to)
            && other !in to
  {
  }

  // ---------------------------------------------------------------------------
  // disconnect

  /** A joined session's disconnect produces exactly one `user_left`, for
      that user, and the list that follows no longer holds anyone with its
      id. */
  lemma DisconnectAnnouncesOnce(st: ServerState, sid: SessionId)
    requires IdsMatch(st.registry) && sid in st.connected && sid in st.registry
    ensures var d := Disconnect(st, sid);
            && |d.out| == 2
            && d.out[0].event == UserLeft(st.registry[sid])
            && !d.out[1].event.UserLeft?
            && (forall u :: u in LastList(d.out) ==> u.id != sid)
            && |LastList(d.out)| == |st.registry| - 1
  {
    var rest := st.registry - {sid};
    UsersRemove(st.registry, sid);
    UsersCount(rest);
  }

  /** A socket that connects and leaves without joining leaves the server
      exactly as it found it, and nobody hears of it. */
  lemma {:induction false} ConnectThenDisconnect(st: ServerState, sid: SessionId)
    requires sid !in st.connected && sid !in st.registry
    ensures var c := Connect(st, sid);
            && c.out == []
            && Disconnect(c.st, sid) == Transition(st, [])
  {
    assert st.connected + {sid} - {sid} == st.connected;
  }
}
