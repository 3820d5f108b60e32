# SocketTalk in Dafny

SocketTalk is a small real-time chat application. A Socket.IO server keeps two
in-memory tables. The credential store maps a lower-cased, trimmed username to
the name as registered and a plain-text password; it starts with one seeded
administrator. The session registry maps a socket id to the user joined on
that socket. Clients register, log in, join, send group or direct messages and
disconnect. The browser side merges incoming messages, raises notifications,
filters the message pane, lists the other users and drives a login/register
form.

This project models that core as pure functions and proves properties of it.

- `JsString` holds the JavaScript string operations the code relies on:
  `trim`, the blank test `s.trim() === ''`, `toLowerCase` and the username
  ordering.
- `Types` holds the records of `types/index.ts`, plus the `send_message`
  payload.
- `Sequences` holds a stable insertion sort, standing in for `Array.prototype.sort`,
  and an order-keeping filter, with their lemmas.
- `CredentialStore` holds the credential store and the `register_user` and
  `login_user` validation.
- `SessionServer` holds every server handler as a transition
  `(state, request) -> (state', emissions)`. Each emission names the exact set
  of sockets it reaches. It also holds the state invariant, proved to hold in
  every reachable state.
- `ServerProperties` holds properties that relate several handler calls.
- `ChatInterface`, `MessageListArea`, `UserListPanel`, `MessageInputForm` and
  `AuthForm` hold the client logic of the components of the same names. The
  form lives in `UsernamePrompt.tsx`.
- `SendPath` follows one message from the input box, through the server, into
  the recipients' panes.

Socket.IO addressing is modelled as follows. Every socket sits in the room
named by its own id.

| call | reaches |
|---|---|
| `socket.emit` and callback replies | the caller |
| `socket.broadcast.emit` | every other connected socket |
| `io.emit` and `socket.server.emit` | every connected socket |
| `io.to(r).to(sid)` | the connected sockets among `{r, sid}` |

By the time `disconnect` runs, the socket has already left its rooms, so those
emissions reach the remaining sockets only.

The `login_success` handler (components/chat/UsernamePrompt.tsx:50-62) does not check `isLoading`, so a response that arrives after the timeout still authenticates (`AuthForm.LateLoginSuccessStillAuthenticates`).

## Model

| member | source | states |
|---|---|---|
| CredentialStore.SeededWellFormed | pages/api/socketio_service.ts:22-28 | At start-up the store holds the administrator under "admin", and every record is filed under the lower-cased trimmed form of its own name, with a trimmed non-empty name and a non-blank password |
| CredentialStore.InsertKeepsWellFormed | pages/api/socketio_service.ts:156 | Filing a well-formed record under its own key keeps the whole store well formed |
| CredentialStore.Register | pages/api/socketio_service.ts:141-158 | `register_user` succeeds exactly when both fields are non-blank and the key is free. A blank field gives "Username and password cannot be empty."; a taken key gives the "already taken" message quoting the trimmed name. Both failures leave the store unchanged. A success adds exactly the key, holding the trimmed name and the password as typed, leaves every other record alone, and replies with the trimmed name |
| CredentialStore.RegisterAddsOne | pages/api/socketio_service.ts:151-157 | A registration grows the store by exactly one record on success and by none otherwise |
| CredentialStore.RegisterKeepsWellFormed | pages/api/socketio_service.ts:148-156 | A registration keeps every record filed under its own key, trimmed, with a non-blank password |
| CredentialStore.RegisterTwiceFails | pages/api/socketio_service.ts:148-153 | Registering a name with the same key again fails with "already taken" and leaves the store as the first registration left it |
| CredentialStore.KeyIgnoresCase | pages/api/socketio_service.ts:149 | Two names that differ only in letter case have the same key, because trimming and lower-casing commute |
| CredentialStore.KeyIgnoresPadding | pages/api/socketio_service.ts:148-149 | Whitespace typed before or after a name does not change its key |
| CredentialStore.LookupIgnoresCase | pages/api/socketio_service.ts:186-189 | A login name finds the same record, or none, in any letter case |
| CredentialStore.LookupIgnoresPadding | pages/api/socketio_service.ts:186-189 | A login name finds the same record, or none, with any whitespace around it |
| CredentialStore.CheckLogin | pages/api/socketio_service.ts:179-202 | Login accepts exactly when both fields are non-blank, the key exists and the stored password is identical. Otherwise it rejects with "Username and password are required.", "User not found..." or "Invalid password.", each in its own case |
| CredentialStore.RegisterThenLogin | pages/api/socketio_service.ts:148-202 | After a registration, any name with the same key logs in exactly with the identical password, and yields the name as first registered; any other password gets "Invalid password." |
| CredentialStore.RegisterKeepsLogins | pages/api/socketio_service.ts:151-156 | A registration never changes the verdict on credentials that were already accepted |
| CredentialStore.AdminLogsIn | pages/api/socketio_service.ts:25-28 | The seeded administrator logs in as "ADMIN" with "Ensure12@", yielding the record ("Admin", "Ensure12@"). A password differing only in case is refused with "Invalid password." |
| SessionServer.InitValid | pages/api/socketio_service.ts:22-28 | The start-up state satisfies the invariant: a well-formed store still holding the administrator, and every joined session filed under its own non-blank, connected id with a trimmed non-empty name |
| SessionServer.Join | pages/api/socketio_service.ts:36-102 | `joinUserToChat` is covered case by case. A blank session id fails with "User session ID is invalid.", an empty list, and no change or emission. A session already joined under the same name changes nothing and emits nothing. One joined under another name is renamed in place, and the list goes once to every socket. A new session is filed as `{id: sid, username}`; `user_joined` goes to every other socket, then the list to all. Every success returns the full user list, the session id and the name; only ever `user_joined` and `user_list_update` are emitted |
| SessionServer.JoinKeepsValid | pages/api/socketio_service.ts:50-66 | A join under a trimmed non-empty name keeps the invariant |
| SessionServer.RegisterUser | pages/api/socketio_service.ts:131-163 | `register_user` without a callback does nothing. With one, the store becomes the registration's result, the registry is untouched, and exactly one reply goes to the caller |
| SessionServer.RegisterUserKeepsValid | pages/api/socketio_service.ts:131-158 | `register_user` keeps the invariant |
| SessionServer.JoinFailureMessage | pages/api/socketio_service.ts:212 | The `login_failed` text after a failed join is the join's error when it is non-empty, else "Failed to join chat after login." It is never empty. The fallback cannot be reached from `login_user`, because a failed join always carries an error (see `ServerProperties.AcceptedLoginOnBlankSession`) |
| SessionServer.Login | pages/api/socketio_service.ts:165-219 | `login_user` acknowledges to the caller first and ends with exactly one `login_success` or `login_failed` to the caller. It ends in `login_success` exactly when the credentials are accepted and the session id is non-blank. A rejection emits only the acknowledgement and the rejection message and changes nothing. An acceptance does what a join under the stored name does, in the middle, and reports the join result or its error |
| SessionServer.LoginKeepsValid | pages/api/socketio_service.ts:165-213 | `login_user` keeps the invariant |
| SessionServer.JoinChat | pages/api/socketio_service.ts:221-244 | `join_chat` without a callback does nothing. A blank name is refused with "Username cannot be empty." and no change. Otherwise it is exactly a join under the trimmed name, with no credential check, and the join result goes back to the caller |
| SessionServer.JoinChatKeepsValid | pages/api/socketio_service.ts:230-243 | `join_chat` keeps the invariant |
| SessionServer.Audience | pages/api/socketio_service.ts:261-265 | A direct message reaches the sender and the recipient if connected, and nobody else. A group message reaches every connected socket |
| SessionServer.SendMessage | pages/api/socketio_service.ts:246-272 | `send_message` from an unjoined socket emits nothing. From a joined one, it emits exactly one `new_message`, stamped with the socket id, the registered name and a fresh id, and copying text, recipient and timestamp from the payload, to the audience above. The state never changes |
| SessionServer.Disconnect | pages/api/socketio_service.ts:274-286 | `disconnect` drops the socket and only its own registry entry. For a joined session it emits `user_left` for that user, then the remaining list, to the remaining sockets; otherwise it emits nothing |
| SessionServer.DisconnectKeepsValid | pages/api/socketio_service.ts:277-282 | `disconnect` keeps the invariant |
| SessionServer.Handle | pages/api/socketio_service.ts:127-131 | Events from a socket that is not connected change nothing. Only a connect adds a socket and only a disconnect removes one; only a registration changes the store |
| SessionServer.HandleKeepsValid | pages/api/socketio_service.ts:127-287 | Every handler keeps the invariant |
| SessionServer.RunKeepsValid | pages/api/socketio_service.ts:127-287 | Any run of events from a valid state ends in a valid state |
| SessionServer.ReachableValid | pages/api/socketio_service.ts:22-28 | Every state reachable from start-up satisfies the invariant |
| ServerProperties.ValidIdsMatch | pages/api/socketio_service.ts:61-62 | In a valid state every registry entry's `id` is its key |
| ServerProperties.UsersCount | pages/api/socketio_service.ts:72 | With entries filed under their own ids, the broadcast list has exactly one user per joined session |
| ServerProperties.UsersRemove | pages/api/socketio_service.ts:279-282 | Removing a session removes exactly its user from the list, and no other session carries that user |
| ServerProperties.UsersById | pages/api/socketio_service.ts:75 | A joined session's user is listed, and every listed user is the entry under its own id |
| ServerProperties.JoinIdempotent | pages/api/socketio_service.ts:54-59 | A second join under the same name changes and emits nothing and answers as the first did |
| ServerProperties.JoinThenDisconnect | pages/api/socketio_service.ts:61-62 | A new session that joins and then disconnects leaves the registry as it found it, and the last list sent is the original one |
| ServerProperties.JoinThenDisconnectAnnounced | pages/api/socketio_service.ts:69 | The other sockets hear `user_joined` and later `user_left` for the same user record |
| ServerProperties.SameNameTwoSessions | pages/api/socketio_service.ts:50-66 | Join is keyed by session alone: two sessions can join under one name, and both are listed |
| ServerProperties.JoinNewSession | pages/api/socketio_service.ts:60-62 | A new session's join adds exactly its own entry |
| ServerProperties.RenameInPlace | pages/api/socketio_service.ts:55-58 | A rename keeps the id and the list size, and broadcasts one list to every socket that has the new record and not the old one |
| ServerProperties.LoginFailureChangesNothing | pages/api/socketio_service.ts:180-201 | A login that ends in `login_failed` leaves the whole state unchanged |
| ServerProperties.LoginJoinsStoredName | pages/api/socketio_service.ts:204-209 | A successful login joins under the name as registered, not as typed. `login_success` carries that name, the session id and a list that includes the user |
| ServerProperties.RegisterThenLoginJoins | pages/api/socketio_service.ts:148-209 | Registering and then logging in on one socket, under any name with the same key, joins the session under the trimmed name as registered |
| ServerProperties.AcceptedLoginSucceeds | pages/api/socketio_service.ts:204-209 | Accepted credentials on a non-blank session always end in `login_success`, in the state the join under the stored name gives |
| ServerProperties.AcceptedLoginOnBlankSession | pages/api/socketio_service.ts:42-46 | Accepted credentials on a blank session id end in `login_failed` with "User session ID is invalid.", the join's own error and not the fallback, and change nothing |
| ServerProperties.AdminSession | pages/api/socketio_service.ts:25-28 | From start-up, a socket logging in as "ADMIN" with the seeded password succeeds and is the only listed user, as "Admin" |
| ServerProperties.JoinChatWithoutCredentials | pages/api/socketio_service.ts:230-243 | `join_chat` joins any non-blank name, registered or not, under its trimmed form, and replies to the caller with a successful join |
| ServerProperties.GroupMessageReachesJoined | pages/api/socketio_service.ts:264 | A group message reaches every joined session |
| ServerProperties.DirectMessageReachesPair | pages/api/socketio_service.ts:261-262 | A direct message reaches the sender and, if connected, the recipient, and no third socket |
| ServerProperties.DisconnectAnnouncesOnce | pages/api/socketio_service.ts:277-282 | A joined session's disconnect emits one `user_left`, for that user. The list that follows holds nobody with its id and is one shorter |
| ServerProperties.ConnectThenDisconnect | pages/api/socketio_service.ts:274-286 | A socket that connects and leaves without joining leaves the server exactly as it found it, and nobody hears of it |
| ChatInterface.TimestampLeqTotalPreorder | components/chat/ChatInterface.tsx:196 | The timestamp comparator is a total preorder |
| ChatInterface.MergeMessage | components/chat/ChatInterface.tsx:192-197 | A message whose id is already listed leaves the list unchanged. Otherwise the list grows by one and gains exactly that message, as a multiset |
| ChatInterface.MergeMembers | components/chat/ChatInterface.tsx:192-196 | After a merge, the list holds exactly the old messages plus the new one when its id was new |
| ChatInterface.MergeSorted | components/chat/ChatInterface.tsx:196 | A merge that adds a message leaves the list sorted by timestamp, and a sorted list stays sorted |
| ChatInterface.MergeInsertsStably | components/chat/ChatInterface.tsx:193-197 | On a sorted list, a new message is inserted after every message whose timestamp is earlier or equal, and before every later one; the other messages keep their order |
| ChatInterface.MergeKeepsIdsUnique | components/chat/ChatInterface.tsx:193-196 | Distinct message ids stay distinct |
| ChatInterface.MergeIdempotent | components/chat/ChatInterface.tsx:193-195 | Receiving a message twice is receiving it once |
| ChatInterface.NotificationBody | components/chat/ChatInterface.tsx:214-217 | The body is measured and cut in UTF-16 code units, as `length` and `substring` do. It is at most 70 units. Text of 70 units or fewer is kept; longer text becomes its first 67 units plus "..." |
| ChatInterface.NotificationBodyIdempotent | components/chat/ChatInterface.tsx:214-217 | A body never needs cutting again |
| ChatInterface.NotificationBodyOfBmp | components/chat/ChatInterface.tsx:214-217 | For text without characters beyond U+FFFF, code units are characters: text of up to 70 characters is kept whole, character for character, and the first 67 characters always survive |
| ChatInterface.NotificationBodySplitsPair | components/chat/ChatInterface.tsx:214-217 | Characters beyond U+FFFF count twice: more than 35 of them are cut to 70 units, and the cut leaves a lone high surrogate just before the "..." |
| ChatInterface.FindUser | components/chat/ChatInterface.tsx:204 | The lookup fails exactly when no listed user has the id; a user found is listed and has that id |
| ChatInterface.FindUserFirst | components/chat/ChatInterface.tsx:204 | The user found is the first with that id |
| ChatInterface.SenderNameListed | components/chat/ChatInterface.tsx:204-205 | A listed sender is shown under the name of the first listed user with the sender's id |
| ChatInterface.SenderNameUnlisted | components/chat/ChatInterface.tsx:204-205 | A sender missing from the user list is shown under the name stamped on the message |
| ChatInterface.NotificationTitle | components/chat/ChatInterface.tsx:207-212 | The title is "DM from " followed by the sender's name when a recipient is set, else "Group: " followed by the name |
| ChatInterface.HandleNewMessage | components/chat/ChatInterface.tsx:190-223 | A new message is always merged. The unread count rises by one exactly for a message from someone else while the page is hidden, and is otherwise unchanged. A notification, with that title, body and the message id as tag, is raised exactly when permission is also granted |
| ChatInterface.DuplicateStillCounted | components/chat/ChatInterface.tsx:192-201 | A repeated message from someone else leaves the list alone but still counts as unread while hidden |
| ChatInterface.VisibleMeansRead | components/chat/ChatInterface.tsx:108-114 | When the page becomes visible the unread counter goes back to 0, with the lists and the selected peer kept; messages arriving while it stays visible neither count nor notify. Hiding the page changes nothing |
| ChatInterface.HandleUserListUpdate | components/chat/ChatInterface.tsx:240-250 | A list update replaces the list wholesale. It clears the selected peer exactly when the peer's id is no longer listed, and otherwise keeps the peer |
| ChatInterface.PeerListedAfterUpdate | components/chat/ChatInterface.tsx:240-244 | After an update, any selected peer is listed; an update that lists the peer keeps the conversation |
| ChatInterface.HandleSendMessage | components/chat/ChatInterface.tsx:304-322 | A payload is emitted exactly when connected, both identity fields are set, the text is non-blank and nothing is sending. It carries the text as given and is addressed to the selected peer's id, or to nobody for the group |
| MessageListArea.FilterMessages | components/chat/MessageListArea.tsx:25-33 | The pane shows an order-preserving subsequence of the messages: every message the view selects, each as often as given, and no other |
| MessageListArea.GroupViewShows | components/chat/MessageListArea.tsx:32 | With no peer selected, exactly the messages with an absent or empty recipient are shown |
| MessageListArea.DirectViewShows | components/chat/MessageListArea.tsx:26-31 | With a peer selected, exactly the messages from the user to the peer and from the peer to the user are shown |
| MessageListArea.DirectViewNeedsIdentity | components/chat/MessageListArea.tsx:28-29 | While the user's id is null, a direct view is empty |
| MessageListArea.ViewsDisjoint | components/chat/MessageListArea.tsx:25-32 | With non-empty ids, a group message never shows in a direct view and a direct message never shows in the group view |
| MessageListArea.DirectBubbleSide | components/chat/MessageListArea.tsx:48 | In a direct view with someone else, a bubble is drawn as the user's own exactly when it was addressed to the peer |
| UserListPanel.UsernameLeqTotalPreorder | components/chat/UserListPanel.tsx:57 | The username comparator is a total preorder |
| UserListPanel.OtherUsers | components/chat/UserListPanel.tsx:56 | The other users are an order-preserving subsequence of the list: exactly the users whose id is not the current one, each as often as given |
| UserListPanel.SortedOtherUsers | components/chat/UserListPanel.tsx:57 | The panel is a permutation of the other users |
| UserListPanel.SortedOtherUsersSorted | components/chat/UserListPanel.tsx:57 | The panel is in username order |
| UserListPanel.SortedOtherUsersMembers | components/chat/UserListPanel.tsx:56-57 | The panel lists exactly the users other than the current one, each as often as given |
| UserListPanel.SortedOtherUsersExcludesSelf | components/chat/UserListPanel.tsx:56 | The current user's id is never listed |
| UserListPanel.SortedOtherUsersIdsDistinct | components/chat/UserListPanel.tsx:56-57 | Users with distinct ids stay distinct in the panel |
| UserListPanel.HighlightExclusive | components/chat/UserListPanel.tsx:75-99 | The Group Chat entry and a user entry are never highlighted together, and with distinct ids at most one user entry is |
| UserListPanel.HighlightExactlyOne | components/chat/UserListPanel.tsx:99 | When the selected peer is listed, its entry is the only one highlighted |
| MessageInputForm.HandleSubmit | components/chat/MessageInputForm.tsx:19-25 | A submit sends exactly when the text is non-blank and nothing is sending. It then sends the trimmed text and clears the box; otherwise the box is kept |
| MessageInputForm.SubmitIffEnabled | components/chat/MessageInputForm.tsx:42 | A submit goes through exactly when the send button is enabled |
| MessageInputForm.SentTextTrimmed | components/chat/MessageInputForm.tsx:21-22 | What is sent is trimmed, non-empty and non-blank; whitespace-only text is never sent |
| MessageInputForm.SecondSubmitSendsNothing | components/chat/MessageInputForm.tsx:21-23 | Submitting again right after a send sends nothing |
| AuthForm.Submit | components/chat/UsernamePrompt.tsx:105-152 | A submit is ignored while a field is blank or a request is pending. While disconnected it only sets "Not connected to chat server. Please wait.". Otherwise it starts loading, clears both notes, and sends the trimmed name with the password as typed; a login also arms the timer |
| AuthForm.OnRegisterReply | components/chat/UsernamePrompt.tsx:128-138 | The registration reply ends loading. A success switches to login mode, clears the password and shows the server's message plus " Please log in."; a failure shows the server's message or "Registration failed." |
| AuthForm.OnLoginSuccess | components/chat/UsernamePrompt.tsx:50-62 | `login_success` clears the timer and ends loading, and keeps the fields, the mode and the success note. It hands the session to the page exactly when the response is a success carrying id, list and name; otherwise it shows the error or "Login successful but session data incomplete." |
| AuthForm.OnLoginFailed | components/chat/UsernamePrompt.tsx:64-72 | `login_failed` clears the timer, ends loading, keeps the fields, the mode and the success note, and shows the server's message or the fallback, never an empty text |
| AuthForm.OnDisconnect | components/chat/UsernamePrompt.tsx:74-84 | A disconnect matters only while loading: it then ends loading, clears the timer, keeps the fields, the mode and the success note, and shows "Connection lost. Please try again." |
| AuthForm.OnTimeout | components/chat/UsernamePrompt.tsx:143-150 | The timer matters only while armed. It spends itself, and gives up a still-pending login with the timed-out message, keeping the fields, the mode and the success note |
| AuthForm.Toggle | components/chat/UsernamePrompt.tsx:154-160 | The toggle, disabled while loading, flips the mode and clears both fields and both notes |
| AuthForm.EditThenSubmit | components/chat/UsernamePrompt.tsx:105-219 | Typing a non-blank name and password into an idle form clears both notes, and a submit while connected then sends the trimmed name and the password as typed, in the form's mode, and starts loading |
| AuthForm.StepKeepsPendingClean | components/chat/UsernamePrompt.tsx:116-118 | While a request is pending the form shows neither an error nor a success note, whatever happens |
| AuthForm.SubmitSendsTrimmedName | components/chat/UsernamePrompt.tsx:124 | Every request carries the trimmed, non-empty name and the exact password |
| AuthForm.SubmitStartsLoadingOnlyWhenSent | components/chat/UsernamePrompt.tsx:108-116 | A request leaves only an idle, connected form and leaves it loading; a submit that sends nothing starts nothing |
| AuthForm.LoginAttemptEnds | components/chat/UsernamePrompt.tsx:50-84 | `login_success`, `login_failed`, a disconnect and the timeout each end a pending login |
| AuthForm.ToggleTwice | components/chat/UsernamePrompt.tsx:154-160 | Toggling twice restores the mode, with the fields left empty |
| AuthForm.LateLoginSuccessStillAuthenticates | components/chat/UsernamePrompt.tsx:50-62 | A complete `login_success` arriving after the timeout has been reported still hands the session to the page |
| SendPath.SentTextIsTrimmed | components/chat/MessageInputForm.tsx:21-22 | The text of a message the chat screen sends, and of the `new_message` the server routes for it, is the trimmed box content, non-empty and non-blank |
| SendPath.GroupMessageShownInGroupView | components/chat/MessageListArea.tsx:32 | A group message routed by the server, with no recipient or an empty one, shows in every group pane |
| SendPath.DirectMessageShownToBoth | components/chat/MessageListArea.tsx:26-31 | A direct message routed by the server shows in the sender's pane for the recipient and the recipient's pane for the sender. It is drawn as the sender's own on the sender's side only, and never shows in the group pane |
| JsString.BlankIffAllWhitespace | pages/api/socketio_service.ts:143-144 | `s.trim() === ''` holds exactly when every character is whitespace |
| JsString.TrimIdempotent | pages/api/socketio_service.ts:148 | Trimming twice is trimming once |
| JsString.TrimOfTrimmed | pages/api/socketio_service.ts:148 | A string with no leading or trailing whitespace is its own trim |
| JsString.TrimIsInfix | pages/api/socketio_service.ts:148 | The trimmed string is a contiguous slice of the original |
| JsString.ToLowerIdempotent | pages/api/socketio_service.ts:149 | Lower-casing twice is lower-casing once, and leaves no capital A-Z |
| JsString.LexLeqTotal | components/chat/UserListPanel.tsx:57 | Any two names are comparable |
| JsString.LexLeqTransitive | components/chat/UserListPanel.tsx:57 | The name order is transitive |
| JsString.LexLeqAntisymmetric | components/chat/UserListPanel.tsx:57 | Names that each precede the other are equal |
| Sequences.SortBySorts | components/chat/ChatInterface.tsx:196 | Sorting by a total preorder yields a sorted permutation of the input |
| Sequences.SortAppended | components/chat/ChatInterface.tsx:196 | Sorting a sorted list with one element appended inserts that element stably |
| Sequences.LeadingRun | components/chat/ChatInterface.tsx:196 | The insertion point is the length of the leading run of elements not greater than the new one: everything before it is not greater, and the element at it is greater |
| Sequences.InsertByAt | components/chat/ChatInterface.tsx:196 | A stable insertion places the element at the end of that leading run, and keeps every other element in place |
| Sequences.InsertBySortedPosition | components/chat/ChatInterface.tsx:196 | In a sorted list, the element goes after every element not greater than it, equal ones included, and before every greater one |
| Sequences.Filter | components/chat/MessageListArea.tsx:25 | `filter` keeps an order-preserving subsequence: exactly the kept elements, each as often as given |

## Left out

- Logging, and the `try`/`catch` blocks for unexpected errors, are not modelled. This includes the "unexpected server error" replies and a missing `data` payload.
- The defensive re-checks in `joinUserToChat` (pages/api/socketio_service.ts:75-99) are not modelled. They cannot fail once the session id has passed the first check.
- The server set-up is not modelled: constructing the Socket.IO server, CORS and the API response (pages/api/socketio_service.ts:104-129, 288-291). The stub handler pages/api/socketio.ts is not part of this model either.
- The handlers take the socket id as an argument and require it to be connected, since Socket.IO delivers events only from live sockets. The dispatcher `SessionServer.Handle` drops anything else.
- Message ids come from `Date` and `Math.random`, so the id is a parameter of `SessionServer.SendMessage`.
- Timestamps are integers, not ISO strings parsed by `Date`, and an unparsable timestamp is not modelled. The comparator `time(a) - time(b)` becomes `<=`, and `Array.prototype.sort` becomes a stable insertion sort.
- `localeCompare` is replaced by lexicographic order on character codes, and `toLowerCase` is modelled on ASCII letters only.
- Strings are sequences of characters. Only the notification body, whose cut depends on it, is measured in UTF-16 code units. `trim` and `toLowerCase` give the same result on characters as on code units, since every whitespace character and every ASCII letter is one code unit.
- User lists are sent as sets. The insertion order of `Array.from(connectedUsers.values())` is not modelled.
- Browser side effects are not modelled: `localStorage` persistence, the Notification API beyond the title, body and tag, `document.title`, toasts, the notification `onclick` (components/chat/ChatInterface.tsx:225-234), `window.location.reload`, and scrolling.
- The client's `user_joined` and `user_left` handlers only raise toasts, so they are not modelled.
- The client's re-join effect (components/chat/ChatInterface.tsx:133-183), `handleSelectPeer` and logout are not modelled.
- Client connection management (lib/socket-client.ts, components/providers/SocketProvider.tsx) and the presentation components are not part of this model.
- `AuthForm`: the lag between `isLoading` and `isLoadingRef` across React renders is not modelled. A handler sees the latest state.
- `AuthForm`: the 15-second login timer is an abstract event that can fire whenever it is armed.
- Concurrency needs no model: each handler runs to completion on one event loop, so each is one atomic step.
- SessionServer.Join: the join response carries the user list as a set, so its contract, and those of `SessionServer.Login` and `SessionServer.JoinChat` that pass it on, state membership and not the order of the list.
