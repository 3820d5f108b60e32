/**
  The pure parts of the chat screen (components/chat/ChatInterface.tsx): the
  message-list merge run on every `new_message`, the unread counter and the
  notification it may raise, the peer reset on `user_list_update`, and the
  guard and payload of `send_message`.
 */
module ChatInterface {
  import opened JsString
  import opened Types
  import opened Sequences

  // ---------------------------------------------------------------------------
  // Merging an incoming message

  /** The sort comparator `(a, b) => time(a) - time(b)`, as "a may precede b". */
  predicate TimestampLeq(a: Message, b: Message)
  {
    a.timestamp <= b.timestamp
  }

  function MessageId(m: Message): string
  {
    m.id
  }

  lemma TimestampLeqTotalPreorder()
    ensures TotalPreorder(TimestampLeq)
  {
  }

  /** Some message of `msgs` carries the id `id`. */
  predicate HasId(msgs: seq<Message>, id: string)
  {
    exists i :: 0 <= i < |msgs| && msgs[i].id == id
  }

  /** The `setMessages` updater: a message whose id is already listed is
      dropped; otherwise it is appended and the list sorted by timestamp. */
  function MergeMessage(prev: seq<Message>, m: Message): (r: seq<Message>)
    ensures HasId(prev, m.id) ==> r == prev
    ensures !HasId(prev, m.id) ==> |r| == |prev| + 1 && multiset(r) == multiset(prev) + multiset{m}
  {
    if HasId(prev, m.id) then prev
    else SortBy(prev + [m], TimestampLeq)
  }

  /** The merged list holds exactly the old messages and the new one. */
  lemma MergeMembers(prev: seq<Message>, m: Message)
    ensures forall x :: x in MergeMessage(prev, m) <==> x in prev || (x == m && !HasId(prev, m.id))
  {
    var r := MergeMessage(prev, m);
    if !HasId(prev, m.id) {
      forall x
        ensures x in r <==> x in prev || x == m
      {
        calc {
          x in r;
          x in multiset(r);
          x in multiset(prev) + multiset{m};
          x in prev || x == m;
        }
      }
    }
  }

  /** A newly merged message leaves the list sorted by timestamp, and a
      sorted list stays sorted whatever arrives. */
  lemma MergeSorted(prev: seq<Message>, m: Message)
    ensures !HasId(prev, m.id) ==> SortedBy(MergeMessage(prev, m), TimestampLeq)
    ensures SortedBy(prev, TimestampLeq) ==> SortedBy(MergeMessage(prev, m), TimestampLeq)
  {
    TimestampLeqTotalPreorder();
    SortBySorts(prev + [m], TimestampLeq);
  }

  /** On a sorted list the merge is a stable insertion: the new message goes
      after every message with an earlier or equal timestamp and before every
      later one, and the others keep their order. */
  lemma MergeInsertsStably(prev: seq<Message>, m: Message)
    requires SortedBy(prev, TimestampLeq) && !HasId(prev, m.id)
    ensures MergeMessage(prev, m) == InsertBy(prev, m, TimestampLeq)
    ensures var k := LeadingRun(prev, m, TimestampLeq);
            && MergeMessage(prev, m) == prev[..k] + [m] + prev[k..]
            && (forall i :: 0 <= i < k ==> prev[i].timestamp <= m.timestamp)
            && (forall j :: k <= j < |prev| ==> prev[j].timestamp > m.timestamp)
  {
    SortAppended(prev, m, TimestampLeq);
    TimestampLeqTotalPreorder();
    InsertBySortedPosition(prev, m, TimestampLeq);
  }

  /** Message ids stay unique. */
  lemma MergeKeepsIdsUnique(prev: seq<Message>, m: Message)
    requires KeysDistinct(prev, MessageId)
    ensures KeysDistinct(MergeMessage(prev, m), MessageId)
  {
    if !HasId(prev, m.id) {
      var s := prev + [m];
      forall i, j | 0 <= i < j < |s|
        ensures MessageId(s[i]) != MessageId(s[j])
      {
        if j == |prev| {
          assert s[i] == prev[i];
        } else {
          assert s[i] == prev[i] && s[j] == prev[j];
        }
      }
      SortByKeepsKeysDistinct(s, TimestampLeq, MessageId);
    }
  }

  /** Receiving the same message twice is receiving it once. */
  lemma MergeIdempotent(prev: seq<Message>, m: Message)
    ensures MergeMessage(MergeMessage(prev, m), m) == MergeMessage(prev, m)
  {
    var r := MergeMessage(prev, m);
    if !HasId(prev, m.id) {
      assert m in multiset(r);
      var i :| 0 <= i < |r| && r[i] == m;
      assert HasId(r, m.id);
    }
  }

  // ---------------------------------------------------------------------------
  // Notifications

  const MaxBodyLength := 70
  const KeptLength := 67
  /** "..." in code units. */
  const Ellipsis: seq<CodeUnit> := [0x2E, 0x2E, 0x2E]

  /** JavaScript's `length > 70 ? substring(0, 67) + "..." : text`, on code
      units. */
  function CutBody(units: seq<CodeUnit>): (r: seq<CodeUnit>)
    ensures |r| <= MaxBodyLength
    ensures |units| <= MaxBodyLength ==> r == units
    ensures |units| > MaxBodyLength ==>
              |r| == MaxBodyLength && r[..KeptLength] == units[..KeptLength] && r[KeptLength..] == Ellipsis
  {
    if |units| > MaxBodyLength then units[..KeptLength] + Ellipsis else units
  }

  /** The notification body: the text's UTF-16 code units, cut to 67 of them
      plus "..." when there are more than 70. */
  function NotificationBody(text: string): (r: seq<CodeUnit>)
    ensures |r| <= MaxBodyLength
    ensures |Utf16(text)| <= MaxBodyLength ==> r == Utf16(text)
    ensures |Utf16(text)| > MaxBodyLength ==>
              |r| == MaxBodyLength && r[..KeptLength] == Utf16(text)[..KeptLength] && r[KeptLength..] == Ellipsis
  {
    CutBody(Utf16(text))
  }

  /** A body never needs cutting again. */
  lemma NotificationBodyIdempotent(text: string)
    ensures CutBody(NotificationBody(text)) == NotificationBody(text)
  {
  }

  /** Text without astral characters is measured in characters: up to 70 it is
      kept as it is, beyond that its first 67 characters are kept. */
  lemma NotificationBodyOfBmp(text: string)
    requires forall i :: 0 <= i < |text| ==> !IsAstral(text[i])
    ensures |text| <= MaxBodyLength ==>
              |NotificationBody(text)| == |text| && forall i :: 0 <= i < |text| ==> NotificationBody(text)[i] == text[i] as int
    ensures forall i :: 0 <= i < |text| && i < KeptLength ==> NotificationBody(text)[i] == text[i] as int
  {
    Utf16OfBmp(text);
  }

  /** Astral characters count twice: a text of more than 35 of them is cut,
      and the cut leaves a lone high surrogate before the "...". */
  lemma NotificationBodySplitsPair(text: string)
    requires forall i :: 0 <= i < |text| ==> IsAstral(text[i])
    requires |text| > MaxBodyLength / 2
    ensures |NotificationBody(text)| == MaxBodyLength
    ensures IsHighSurrogate(NotificationBody(text)[KeptLength - 1])
    ensures NotificationBody(text)[KeptLength..] == Ellipsis
  {
    Utf16OfAstral(text);
    var u := Utf16(text);
    assert (KeptLength - 1) % 2 == 0;
    assert IsHighSurrogate(u[KeptLength - 1]);
    assert NotificationBody(text)[KeptLength - 1] == NotificationBody(text)[..KeptLength][KeptLength - 1];
  }

  /** `Array.prototype.find` by id. */
  function FindUser(users: seq<User>, id: SessionId): (r: Option<User>)
    ensures r.None? <==> forall i :: 0 <= i < |users| ==> users[i].id != id
    ensures r.Some? ==> r.value in users && r.value.id == id
  {
    if users == [] then None
    else if users[0].id == id then Some(users[0])
    else FindUser(users[1..], id)
  }

  /** The user found is the first one with that id. */
  lemma {:induction false} FindUserFirst(users: seq<User>, id: SessionId, i: nat)
    requires i < |users| && users[i].id == id
    requires forall j :: 0 <= j < i ==> users[j].id != id
    ensures FindUser(users, id) == Some(users[i])
  {
    if i > 0 {
      FindUserFirst(users[1..], id, i - 1);
    }
  }

  /** The name shown for a sender: as in the current user list when it is
      listed there, else as stamped on the message. */
  function SenderName(users: seq<User>, m: Message): (name: string)
  {
    match FindUser(users, m.senderId)
    case Some(u) => u.username
    case None => m.senderUsername
  }

  /** The sender's name comes from the first listed user with the sender's
      id; an unlisted sender keeps the name stamped on the message. */
  lemma SenderNameListed(users: seq<User>, m: Message, i: nat)
    requires i < |users| && users[i].id == m.senderId
    requires forall j :: 0 <= j < i ==> users[j].id != m.senderId
    ensures SenderName(users, m) == users[i].username
  {
    FindUserFirst(users, m.senderId, i);
  }

  lemma SenderNameUnlisted(users: seq<User>, m: Message)
    requires forall j :: 0 <= j < |users| ==> users[j].id != m.senderId
    ensures SenderName(users, m) == m.senderUsername
  {
  }

  const DirectTitlePrefix := "DM from "
  const GroupTitlePrefix := "Group: "

  /** "DM from <name>" for a direct message, "Group: <name>" otherwise. */
  function NotificationTitle(users: seq<User>, m: Message): (title: string)
    ensures |title| == (if IsTruthy(m.recipientId) then |DirectTitlePrefix| else |GroupTitlePrefix|) + |SenderName(users, m)|
    ensures IsTruthy(m.recipientId) ==>
              title[..|DirectTitlePrefix|] == DirectTitlePrefix && title[|DirectTitlePrefix|..] == SenderName(users, m)
    ensures !IsTruthy(m.recipientId) ==>
              title[..|GroupTitlePrefix|] == GroupTitlePrefix && title[|GroupTitlePrefix|..] == SenderName(users, m)
  {
    (if IsTruthy(m.recipientId) then DirectTitlePrefix else GroupTitlePrefix) + SenderName(users, m)
  }

  // ---------------------------------------------------------------------------
  // The screen's state and its socket handlers

  /** The parts of the chat screen's state the handlers touch. */
  datatype ChatView = ChatView(messages: seq<Message>, users: seq<User>, selectedPeer: Option<User>, unread: nat)

  /** A desktop notification: title, body and the message id as its tag. */
  datatype Notification = Notification(title: string, body: seq<CodeUnit>, tag: string)

  datatype NewMessageOutcome = NewMessageOutcome(view: ChatView, notification: Option<Notification>)

  /** `handleNewMessage`: merge the message; while the page is hidden count a
      message from someone else as unread, and notify when allowed to. */
  function HandleNewMessage(v: ChatView, currentUserId: SessionId, m: Message, hidden: bool, granted: bool): (r: NewMessageOutcome)
    ensures r.view.messages == MergeMessage(v.messages, m)
    ensures r.view.users == v.users && r.view.selectedPeer == v.selectedPeer
    ensures r.view.unread == v.unread + 1 <==> m.senderId != currentUserId && hidden
    ensures r.view.unread == v.unread || r.view.unread == v.unread + 1
    ensures r.notification.Some? <==> m.senderId != currentUserId && hidden && granted
    ensures r.notification.Some? ==>
              r.notification.value == Notification(NotificationTitle(v.users, m), NotificationBody(m.text), m.id)
  {
    var view := v.(messages := MergeMessage(v.messages, m));
    if m.senderId != currentUserId && hidden then
      var n := if granted then Some(Notification(NotificationTitle(v.users, m), NotificationBody(m.text), m.id)) else None;
      NewMessageOutcome(view.(unread := v.unread + 1), n)
    else NewMessageOutcome(view, None)
  }

  /** The unread counter counts deliveries, not messages: a repeated message
      from someone else changes no list but still counts while hidden. */
  lemma DuplicateStillCounted(v: ChatView, currentUserId: SessionId, m: Message, granted: bool)
    requires HasId(v.messages, m.id) && m.senderId != currentUserId
    ensures var r := HandleNewMessage(v, currentUserId, m, true, granted);
            r.view.messages == v.messages && r.view.unread == v.unread + 1
  {
  }

  /** The `visibilitychange` handler: the unread counter is reset when the
      page becomes visible, and left alone when it is hidden. */
  function OnVisibilityChange(v: ChatView, hidden: bool): ChatView
  {
    if hidden then v else v.(unread := 0)
  }

  /** Once the page is visible again nothing is unread, and messages that
      arrive while it stays visible neither count nor notify. */
  lemma VisibleMeansRead(v: ChatView, currentUserId: SessionId, m: Message, granted: bool)
    ensures var seen := OnVisibilityChange(v, false);
            var r := HandleNewMessage(seen, currentUserId, m, false, granted);
            && seen.unread == 0
            && seen.messages == v.messages && seen.users == v.users && seen.selectedPeer == v.selectedPeer
            && r.view.unread == 0 && r.notification.None?
    ensures OnVisibilityChange(v, true) == v
  {
  }

  /** Some user of `users` has the id `id`. */
  predicate Listed(users: seq<User>, id: SessionId)
  {
    exists i :: 0 <= i < |users| && users[i].id == id
  }

  /** `handleUserListUpdate`: the list is replaced wholesale; the selected
      peer is dropped exactly when its id is no longer listed. */
  function HandleUserListUpdate(v: ChatView, updated: seq<User>): (r: ChatView)
    ensures r.users == updated && r.messages == v.messages && r.unread == v.unread
    ensures r.selectedPeer.None? <==> v.selectedPeer.None? || !Listed(updated, v.selectedPeer.value.id)
    ensures r.selectedPeer.Some? ==> r.selectedPeer == v.selectedPeer
  {
    var peer := if v.selectedPeer.Some? && FindUser(updated, v.selectedPeer.value.id).None? then None else v.selectedPeer;
    v.(users := updated, selectedPeer := peer)
  }

  /** After an update, a selected peer is always one of the listed users'
      ids; an update that lists the peer again keeps the conversation. */
  lemma PeerListedAfterUpdate(v: ChatView, updated: seq<User>)
    ensures var r := HandleUserListUpdate(v, updated);
            && (r.selectedPeer.Some? ==> Listed(r.users, r.selectedPeer.value.id))
            && (v.selectedPeer.Some? && Listed(updated, v.selectedPeer.value.id) ==> r.selectedPeer == v.selectedPeer)
  {
  }

  // ---------------------------------------------------------------------------
  // Sending

  /** What `handleSendMessage` reads besides the text. */
  datatype SendContext = SendContext(
    connected: bool,
    currentUserId: Option<SessionId>,
    currentUsername: Option<string>,
    isSending: bool,
    selectedPeer: Option<User>)

  /** `handleSendMessage`: emit only when connected, identified, not already
      sending and the text is not blank; address the selected peer, or the
      group when there is none. The text goes out as given. */
  function HandleSendMessage(ctx: SendContext, text: string, timestamp: Timestamp): (r: Option<SendPayload>)
    ensures r.Some? <==>
              && ctx.connected && IsTruthy(ctx.currentUserId) && IsTruthy(ctx.currentUsername)
              && !IsBlank(text) && !ctx.isSending
    ensures r.Some? ==> r.value.text == text && r.value.timestamp == timestamp
    ensures r.Some? ==> (r.value.recipientId.Some? <==> ctx.selectedPeer.Some?)
    ensures r.Some? && ctx.selectedPeer.Some? ==> r.value.recipientId == Some(ctx.selectedPeer.value.id)
  {
    if ctx.connected && IsTruthy(ctx.currentUserId) && IsTruthy(ctx.currentUsername) && !IsBlank(text) && !ctx.isSending then
      Some(SendPayload(text, if ctx.selectedPeer.Some? then Some(ctx.selectedPeer.value.id) else None, timestamp))
    else None
  }
}
