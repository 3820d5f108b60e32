/**
  The login/registration form (`AuthForm` in
  components/chat/UsernamePrompt.tsx) as a state machine. The 15-second
  login timer is a flag plus an abstract "timer fires" event; the form's
  inputs and the mode toggle are disabled while a request is pending, so
  those events change nothing then.
 */
module AuthForm {
  import opened JsString
  import opened Types

  datatype Mode = LoginMode | RegisterMode

  datatype AuthState = AuthState(
    username: string,
    password: string,
    mode: Mode,
    isLoading: bool,
    error: Option<string>,
    successMessage: Option<string>,
    timerArmed: bool)

  /** What a step does outside the form: a request to the server, or the
      hand-over of a session to the page (`onAuthSuccess`). */
  datatype AuthEffect =
    | NoEffect
    | EmitRegister(username: string, password: string)
    | EmitLogin(username: string, password: string)
    | AuthSucceeded(response: JoinResponse)

  datatype AuthStep = AuthStep(st: AuthState, effect: AuthEffect)

  const Initial := AuthState("", "", LoginMode, false, None, None, false)

  const NotConnectedMessage := "Not connected to chat server. Please wait."
  const RegisteredFallback := "Registration successful!"
  const PleaseLogIn := " Please log in."
  const RegisterFailedFallback := "Registration failed."
  const IncompleteSessionMessage := "Login successful but session data incomplete."
  const LoginFailedFallback := "Login failed. Please check your credentials or register."
  const ConnectionLostMessage := "Connection lost. Please try again."
  const TimedOutMessage := "Login attempt timed out. The server might be unresponsive or the connection is unstable. Please try again."

  /** `a || fallback` for a string. */
  function OrElse(a: string, fallback: string): string
  {
    if a != "" then a else fallback
  }

  /** `handleSubmit`: ignored while a field is blank or a request is pending;
      refused with an error while disconnected; otherwise sends the trimmed
      username with the password as typed, and, for a login, arms the timer. */
  function Submit(s: AuthState, connected: bool): (r: AuthStep)
    ensures IsBlank(s.username) || IsBlank(s.password) || s.isLoading ==> r == AuthStep(s, NoEffect)
    ensures !(IsBlank(s.username) || IsBlank(s.password) || s.isLoading) && !connected ==>
              r == AuthStep(s.(error := Some(NotConnectedMessage)), NoEffect)
    ensures !(IsBlank(s.username) || IsBlank(s.password) || s.isLoading) && connected ==>
              && r.st.isLoading && r.st.error.None? && r.st.successMessage.None?
              && r.st.username == s.username && r.st.password == s.password && r.st.mode == s.mode
              && r.st.timerArmed == s.mode.LoginMode?
              && r.effect == (if s.mode.RegisterMode? then EmitRegister(Trim(s.username), s.password)
                              else EmitLogin(Trim(s.username), s.password))
  {
    if IsBlank(s.username) || IsBlank(s.password) || s.isLoading then AuthStep(s, NoEffect)
    else if !connected then AuthStep(s.(error := Some(NotConnectedMessage)), NoEffect)
    else
      var pending := s.(isLoading := true, error := None, successMessage := None, timerArmed := false);
      var credentials := (Trim(s.username), s.password);
      if s.mode.RegisterMode? then AuthStep(pending, EmitRegister(credentials.0, credentials.1))
      else AuthStep(pending.(timerArmed := true), EmitLogin(credentials.0, credentials.1))
  }

  /** The `register_user` callback: loading ends; on success switch to login
      with the password cleared and a success note, else show the error. */
  function OnRegisterReply(s: AuthState, resp: RegisterResponse): (r: AuthState)
    ensures !r.isLoading
    ensures r.username == s.username && r.timerArmed == s.timerArmed
    ensures resp.success ==>
              && r.mode == LoginMode && r.password == ""
              && r.successMessage == Some(OrElse(resp.message, RegisteredFallback) + PleaseLogIn)
              && r.error == s.error
    ensures !resp.success ==>
              && r.mode == s.mode && r.password == s.password && r.successMessage == s.successMessage
              && r.error == Some(OrElse(resp.message, RegisterFailedFallback))
  {
    var done := s.(isLoading := false);
    if resp.success then
      done.(successMessage := Some(OrElse(resp.message, RegisteredFallback) + PleaseLogIn), mode := LoginMode, password := "")
    else done.(error := Some(OrElse(resp.message, RegisterFailedFallback)))
  }

  /** The fields `handleLoginSuccess` insists on before handing over. */
  predicate CompleteSession(resp: JoinResponse)
  {
    resp.success && IsTruthy(resp.currentUserId) && resp.users.Some? && IsTruthy(resp.username)
  }

  /** The fields and the success note are left as they were. */
  predicate KeepsInput(s: AuthState, r: AuthState)
  {
    r.username == s.username && r.password == s.password && r.mode == s.mode && r.successMessage == s.successMessage
  }

  /** `handleLoginSuccess`: the timer is cleared and loading ends; a complete
      response is handed to the page, an incomplete one becomes an error. */
  function OnLoginSuccess(s: AuthState, resp: JoinResponse): (r: AuthStep)
    ensures !r.st.isLoading && !r.st.timerArmed && KeepsInput(s, r.st)
    ensures r.effect.AuthSucceeded? <==> CompleteSession(resp)
    ensures r.effect.AuthSucceeded? ==> r.effect.response == resp && r.st.error == s.error
    ensures !CompleteSession(resp) ==>
              r.effect == NoEffect
              && r.st.error == Some(if IsTruthy(resp.error) then resp.error.value else IncompleteSessionMessage)
  {
    var done := s.(isLoading := false, timerArmed := false);
    if CompleteSession(resp) then AuthStep(done, AuthSucceeded(resp))
    else AuthStep(done.(error := Some(if IsTruthy(resp.error) then resp.error.value else IncompleteSessionMessage)), NoEffect)
  }

  /** `handleLoginFailed`: the timer is cleared, loading ends, the server's
      message (or a fallback) is shown. */
  function OnLoginFailed(s: AuthState, message: string): (r: AuthState)
    ensures !r.isLoading && !r.timerArmed && KeepsInput(s, r)
    ensures r.error == Some(OrElse(message, LoginFailedFallback))
    ensures r.error.value != ""
  {
    s.(isLoading := false, timerArmed := false, error := Some(OrElse(message, LoginFailedFallback)))
  }

  /** `handleDisconnect`: only a pending request is abandoned. */
  function OnDisconnect(s: AuthState): (r: AuthState)
    ensures !s.isLoading ==> r == s
    ensures s.isLoading ==> !r.isLoading && !r.timerArmed && r.error == Some(ConnectionLostMessage) && KeepsInput(s, r)
  {
    if s.isLoading then s.(isLoading := false, timerArmed := false, error := Some(ConnectionLostMessage))
    else s
  }

  /** The login timer fires (only when armed): a login still pending is given
      up with an error; either way the timer is spent. */
  function OnTimeout(s: AuthState): (r: AuthState)
    ensures !s.timerArmed ==> r == s
    ensures s.timerArmed && !s.isLoading ==> r == s.(timerArmed := false)
    ensures s.timerArmed && s.isLoading ==> !r.isLoading && !r.timerArmed && r.error == Some(TimedOutMessage) && KeepsInput(s, r)
  {
    if !s.timerArmed then s
    else if s.isLoading then s.(isLoading := false, timerArmed := false, error := Some(TimedOutMessage))
    else s.(timerArmed := false)
  }

  function Flip(m: Mode): Mode
  {
    if m.LoginMode? then RegisterMode else LoginMode
  }

  /** `toggleAuthMode`: flip the mode and clear both fields and both notes. */
  function Toggle(s: AuthState): (r: AuthState)
    ensures s.isLoading ==> r == s
    ensures !s.isLoading ==>
              && r.mode != s.mode
              && r.username == "" && r.password == "" && r.error.None? && r.successMessage.None?
              && r.isLoading == s.isLoading && r.timerArmed == s.timerArmed
  {
    if s.isLoading then s
    else s.(mode := Flip(s.mode), error := None, successMessage := None, password := "", username := "")
  }

  /** Typing in the username field: the text changes and both notes clear. */
  function EditUsername(s: AuthState, value: string): AuthState
  {
    if s.isLoading then s else s.(username := value, error := None, successMessage := None)
  }

  /** Typing in the password field. */
  function EditPassword(s: AuthState, value: string): AuthState
  {
    if s.isLoading then s else s.(password := value, error := None, successMessage := None)
  }

  // ---------------------------------------------------------------------------
  // The machine as a whole

  datatype AuthEvent =
    | SubmitEvent(connected: bool)
    | RegisterReplyEvent(registered: RegisterResponse)
    | LoginSuccessEvent(joined: JoinResponse)
    | LoginFailedEvent(message: string)
    | DisconnectEvent
    | TimeoutEvent
    | ToggleEvent
    | UsernameInput(username: string)
    | PasswordInput(password: string)

  function Step(s: AuthState, e: AuthEvent): AuthStep
  {
    match e
    case SubmitEvent(connected) => Submit(s, connected)
    case RegisterReplyEvent(resp) => AuthStep(OnRegisterReply(s, resp), NoEffect)
    case LoginSuccessEvent(resp) => OnLoginSuccess(s, resp)
    case LoginFailedEvent(message) => AuthStep(OnLoginFailed(s, message), NoEffect)
    case DisconnectEvent => AuthStep(OnDisconnect(s), NoEffect)
    case TimeoutEvent => AuthStep(OnTimeout(s), NoEffect)
    case ToggleEvent => AuthStep(Toggle(s), NoEffect)
    case UsernameInput(value) => AuthStep(EditUsername(s, value), NoEffect)
    case PasswordInput(value) => AuthStep(EditPassword(s, value), NoEffect)
  }

  /** While a request is pending the form shows neither an error nor a
      success note. */
  predicate PendingIsClean(s: AuthState)
  {
    s.isLoading ==> s.error.None? && s.successMessage.None?
  }

  lemma StepKeepsPendingClean(s: AuthState, e: AuthEvent)
    requires PendingIsClean(s)
    ensures PendingIsClean(Step(s, e).st)
  {
  }

  /** Every request leaves the form with the trimmed username and the exact
      password. */
  lemma SubmitSendsTrimmedName(s: AuthState, connected: bool)
    ensures var r := Submit(s, connected);
            && (r.effect.EmitLogin? || r.effect.EmitRegister?) ==>
                 && r.effect.username == Trim(s.username) && IsTrimmed(r.effect.username)
                 && r.effect.username != ""
                 && r.effect.password == s.password
  {
    if !IsBlank(s.username) {
      NotBlankWhenTrimmed(Trim(s.username));
    }
  }

  /** Typing a name and a password into an idle form and submitting while
      connected sends exactly what was typed, the name trimmed, in the form's
      mode. */
  lemma EditThenSubmit(s: AuthState, u: string, p: string)
    requires !s.isLoading && !IsBlank(u) && !IsBlank(p)
    ensures var typed := EditPassword(EditUsername(s, u), p);
            var r := Submit(typed, true);
            && typed.error.None? && typed.successMessage.None?
            && r.effect == (if s.mode.LoginMode? then EmitLogin(Trim(u), p) else EmitRegister(Trim(u), p))
            && r.st.isLoading
  {
  }

  /** A request is only ever sent from a form that was idle, and leaves it
      pending; a submit while disconnected sends nothing and starts nothing. */
  lemma SubmitStartsLoadingOnlyWhenSent(s: AuthState, connected: bool)
    ensures var r := Submit(s, connected);
            && (r.effect != NoEffect ==> !s.isLoading && r.st.isLoading && connected)
            && (r.effect == NoEffect ==> r.st.isLoading == s.isLoading)
  {
  }

  /** Each of the four ways a login attempt can end stops the loading. */
  lemma LoginAttemptEnds(s: AuthState, resp: JoinResponse, message: string)
    requires s.isLoading && s.timerArmed
    ensures !OnLoginSuccess(s, resp).st.isLoading
    ensures !OnLoginFailed(s, message).isLoading
    ensures !OnDisconnect(s).isLoading
    ensures !OnTimeout(s).isLoading
  {
  }

  /** Toggling twice restores the mode and leaves the fields empty. */
  lemma ToggleTwice(s: AuthState)
    requires !s.isLoading
    ensures Toggle(Toggle(s)).mode == s.mode
    ensures Toggle(Toggle(s)) == Toggle(s).(mode := s.mode)
  {
  }

  /** A `login_success` that arrives after the timer has given up is still
      honoured: the page is handed the session even though the form had
      already reported a timeout. */
  lemma LateLoginSuccessStillAuthenticates(s: AuthState, resp: JoinResponse)
    requires s.isLoading && s.timerArmed && CompleteSession(resp)
    ensures var late := OnTimeout(s);
            && late.error == Some(TimedOutMessage) && !late.isLoading
            && OnLoginSuccess(late, resp).effect == AuthSucceeded(resp)
  {
  }
}
