/**
  The server's registered-user table (`registeredUsers` in
  pages/api/socketio_service.ts): plaintext credentials keyed by the
  lower-cased, trimmed username, pre-seeded with the administrator, and the
  validation halves of `register_user` and `login_user`.
 */
module CredentialStore {
  import opened JsString
  import opened Types

  /** One stored record: the username as typed (trimmed) and the password
      exactly as given. */
  datatype Cred = Cred(username: string, password: string)

  type Store = map<string, Cred>

  /** The case-insensitive key of a username. */
  function Key(username: string): string
  {
    ToLower(Trim(username))
  }

  /** The store at start-up: only the pre-seeded administrator. */
  const Seeded: Store := map["admin" := Cred("Admin", "Ensure12@")]

  /** Every record sits under its own key, holds a trimmed non-empty username
      and a non-blank password. */
  predicate WellFormed(creds: Store)
  {
    forall k :: k in creds ==>
      && Key(creds[k].username) == k
      && creds[k].username != ""
      && IsTrimmed(creds[k].username)
      && !IsBlank(creds[k].password)
  }

  /** A key does not change when the username is trimmed first. */
  lemma KeyOfTrimmed(username: string)
    ensures Key(Trim(username)) == Key(username)
  {
    TrimIdempotent(username);
  }

  /** Adding a well-formed record under its own key keeps the store
      well-formed. */
  lemma InsertKeepsWellFormed(creds: Store, cred: Cred)
    requires WellFormed(creds)
    requires cred.username != "" && IsTrimmed(cred.username) && !IsBlank(cred.password)
    ensures WellFormed(creds[Key(cred.username) := cred])
  {
    var m := creds[Key(cred.username) := cred];
    forall k | k in m
      ensures Key(m[k].username) == k && m[k].username != "" && IsTrimmed(m[k].username) && !IsBlank(m[k].password)
    {
      if k != Key(cred.username) {
        assert m[k] == creds[k];
      }
    }
  }

  lemma SeededWellFormed()
    ensures WellFormed(Seeded)
    ensures "admin" in Seeded
  {
    TrimOfTrimmed("Admin");
    TrimOfTrimmed("Ensure12@");
    LowerOfAdmin("Admin");
    InsertKeepsWellFormed(map[], Cred("Admin", "Ensure12@"));
  }

  // ---------------------------------------------------------------------------
  // register_user

  const EmptyFieldsMessage := "Username and password cannot be empty."
  const RegisteredMessage := "Registration successful! You can now log in."

  function TakenMessage(trimmedUsername: string): string
  {
    "Username \"" + trimmedUsername + "\" is already taken."
  }

  datatype RegisterOutcome = RegisterOutcome(creds: Store, resp: RegisterResponse)

  /** The `register_user` handler: validate, reject a taken key, otherwise
      insert one record. */
  function Register(creds: Store, username: Option<string>, password: Option<string>): (r: RegisterOutcome)
    ensures r.resp.success <==> Present(username) && Present(password) && Key(username.value) !in creds
    ensures !r.resp.success ==> r.creds == creds && r.resp.username == None
    ensures !(Present(username) && Present(password)) ==> r.resp.message == EmptyFieldsMessage
    ensures Present(username) && Present(password) && Key(username.value) in creds ==>
              r.resp.message == TakenMessage(Trim(username.value))
    ensures r.resp.success ==>
              && r.creds.Keys == creds.Keys + {Key(username.value)}
              && r.creds[Key(username.value)] == Cred(Trim(username.value), password.value)
              && (forall k :: k in creds ==> r.creds[k] == creds[k])
              && r.resp == RegisterResponse(true, RegisteredMessage, Some(Trim(username.value)))
  {
    if !Present(username) || !Present(password) then
      RegisterOutcome(creds, RegisterResponse(false, EmptyFieldsMessage, None))
    else
      var trimmed := Trim(username.value);
      var key := Key(username.value);
      if key in creds then
        RegisterOutcome(creds, RegisterResponse(false, TakenMessage(trimmed), None))
      else
        RegisterOutcome(creds[key := Cred(trimmed, password.value)], RegisterResponse(true, RegisteredMessage, Some(trimmed)))
  }

  /** A successful registration adds exactly one record. */
  lemma RegisterAddsOne(creds: Store, username: Option<string>, password: Option<string>)
    ensures var r := Register(creds, username, password);
            |r.creds| == if r.resp.success then |creds| + 1 else |creds|
  {
    var r := Register(creds, username, password);
    if r.resp.success {
      var key := Key(username.value);
      assert r.creds == creds[key := r.creds[key]];
    }
  }

  /** Registration keeps every record under its own key, trimmed and with a
      non-blank password. */
  lemma RegisterKeepsWellFormed(creds: Store, username: Option<string>, password: Option<string>)
    requires WellFormed(creds)
    ensures WellFormed(Register(creds, username, password).creds)
  {
    if Register(creds, username, password).resp.success {
      var trimmed := Trim(username.value);
      KeyOfTrimmed(username.value);
      BlankIffAllWhitespace(username.value);
      InsertKeepsWellFormed(creds, Cred(trimmed, password.value));
    }
  }

  // ---------------------------------------------------------------------------
  // login_user, up to the hand-off to the session registry

  const RequiredMessage := "Username and password are required."
  const NotFoundMessage := "User not found. Please register or check your username."
  const InvalidPasswordMessage := "Invalid password."

  datatype LoginCheck = Accepted(cred: Cred) | Rejected(message: string)

  /** Case-insensitive lookup of a username. */
  function Lookup(creds: Store, username: string): Option<Cred>
  {
    var key := Key(username);
    if key in creds then Some(creds[key]) else None
  }

  /** Two names that differ only in letter case have the same key. */
  lemma KeyIgnoresCase(u1: string, u2: string)
    requires ToLower(u1) == ToLower(u2)
    ensures Key(u1) == Key(u2)
  {
    TrimLower(u1);
    TrimLower(u2);
  }

  /** Whitespace typed around a name does not change its key. */
  lemma KeyIgnoresPadding(pre: string, u: string, post: string)
    requires AllWhitespace(pre) && AllWhitespace(post)
    ensures Key(pre + u + post) == Key(u)
  {
    TrimIgnoresPadding(pre, u, post);
  }

  /** A name looks up the same record in any letter case. */
  lemma LookupIgnoresCase(creds: Store, u1: string, u2: string)
    requires ToLower(u1) == ToLower(u2)
    ensures Lookup(creds, u1) == Lookup(creds, u2)
  {
    KeyIgnoresCase(u1, u2);
  }

  /** A name looks up the same record with any whitespace around it. */
  lemma LookupIgnoresPadding(creds: Store, pre: string, u: string, post: string)
    requires AllWhitespace(pre) && AllWhitespace(post)
    ensures Lookup(creds, pre + u + post) == Lookup(creds, u)
  {
    KeyIgnoresPadding(pre, u, post);
  }

  /** The validation steps of `login_user`: required fields, known user,
      identical password. */
  function CheckLogin(creds: Store, username: Option<string>, password: Option<string>): (r: LoginCheck)
    ensures r.Accepted? <==>
              && Present(username) && Present(password)
              && Key(username.value) in creds
              && creds[Key(username.value)].password == password.value
    ensures r.Accepted? ==> r.cred == creds[Key(username.value)]
    ensures !(Present(username) && Present(password)) ==> r == Rejected(RequiredMessage)
    ensures Present(username) && Present(password) && Key(username.value) !in creds ==>
              r == Rejected(NotFoundMessage)
    ensures Present(username) && Present(password) && Key(username.value) in creds
              && creds[Key(username.value)].password != password.value ==>
              r == Rejected(InvalidPasswordMessage)
  {
    if !Present(username) || !Present(password) then Rejected(RequiredMessage)
    else
      match Lookup(creds, username.value)
      case None => Rejected(NotFoundMessage)
      case Some(stored) =>
        if stored.password != password.value then Rejected(InvalidPasswordMessage)
        else Accepted(stored)
  }

  // ---------------------------------------------------------------------------
  // Properties relating the two

  /** A second registration of the same name, in any letter case and with any
      surrounding whitespace, fails and changes nothing. */
  lemma RegisterTwiceFails(creds: Store, u1: string, p1: string, u2: string, p2: string)
    requires Register(creds, Some(u1), Some(p1)).resp.success
    requires Key(u1) == Key(u2) && !IsBlank(u2) && !IsBlank(p2)
    ensures var after := Register(creds, Some(u1), Some(p1)).creds;
            var second := Register(after, Some(u2), Some(p2));
            && !second.resp.success
            && second.resp.message == TakenMessage(Trim(u2))
            && second.creds == after
  {
  }

  /** The registered credentials log in: the same name in any letter case or
      padding, with the identical password, is accepted and yields the name as
      first registered; any other password is refused. */
  lemma {:induction false} RegisterThenLogin(creds: Store, u: string, p: string, typed: string, attempt: string)
    requires Register(creds, Some(u), Some(p)).resp.success
    requires Key(typed) == Key(u) && !IsBlank(typed) && !IsBlank(attempt)
    ensures var after := Register(creds, Some(u), Some(p)).creds;
            && (CheckLogin(after, Some(typed), Some(attempt)).Accepted? <==> attempt == p)
            && (attempt == p ==> CheckLogin(after, Some(typed), Some(attempt)).cred.username == Trim(u))
            && (attempt != p ==> CheckLogin(after, Some(typed), Some(attempt)) == Rejected(InvalidPasswordMessage))
  {
  }

  /** Registration never disturbs an existing record, so a login that was
      accepted stays accepted. */
  lemma RegisterKeepsLogins(creds: Store, u: string, p: string, typed: Option<string>, attempt: Option<string>)
    requires CheckLogin(creds, typed, attempt).Accepted?
    ensures CheckLogin(Register(creds, Some(u), Some(p)).creds, typed, attempt) == CheckLogin(creds, typed, attempt)
  {
  }

  lemma UpperAdminKey()
    ensures Key("ADMIN") == "admin" && Present(Some("ADMIN"))
  {
    NotBlankWhenTrimmed("ADMIN");
    LowerOfAdmin("ADMIN");
  }

  lemma LowerAdminKey()
    ensures Key("admin") == "admin" && Present(Some("admin"))
  {
    NotBlankWhenTrimmed("admin");
    LowerOfAdmin("admin");
  }

  /** Any letter case of "admin" lower-cases to "admin". */
  lemma LowerOfAdmin(s: string)
    requires |s| == 5
    requires LowerChar(s[0]) == 'a' && LowerChar(s[1]) == 'd' && LowerChar(s[2]) == 'm'
    requires LowerChar(s[3]) == 'i' && LowerChar(s[4]) == 'n'
    ensures ToLower(s) == "admin"
  {
    var l := ToLower(s);
    assert |l| == 5;
    assert l[0] == 'a' && l[1] == 'd' && l[2] == 'm' && l[3] == 'i' && l[4] == 'n';
  }

  lemma AdminPasswordsPresent()
    ensures Present(Some("Ensure12@")) && Present(Some("ensure12@"))
  {
    NotBlankWhenTrimmed("Ensure12@");
    NotBlankWhenTrimmed("ensure12@");
  }

  /** The pre-seeded administrator logs in under any letter case of its
      name, with the exact password only. */
  lemma AdminLogsIn()
    ensures CheckLogin(Seeded, Some("ADMIN"), Some("Ensure12@")) == Accepted(Cred("Admin", "Ensure12@"))
    ensures CheckLogin(Seeded, Some("admin"), Some("ensure12@")) == Rejected(InvalidPasswordMessage)
  {
    UpperAdminKey();
    LowerAdminKey();
    AdminPasswordsPresent();
    assert "ensure12@"[0] != "Ensure12@"[0];
  }
}
