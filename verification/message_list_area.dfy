/**
  Which messages the message pane shows (components/chat/MessageListArea.tsx):
  the group conversation, or the direct conversation with the selected peer,
  and which bubbles are drawn as the current user's own.
 */
module MessageListArea {
  import opened Types
  import opened Sequences

  /** JavaScript `===` between an optional id and a possibly-null id: true
      only when both are present and equal (`undefined === null` is false). */
  predicate SameId(a: Option<SessionId>, b: Option<SessionId>)
  {
    a.Some? && b.Some? && a.value == b.value
  }

  /** A message of the direct conversation with `peer`: sent by the current
      user to the peer, or by the peer to the current user. */
  predicate InDirectView(msg: Message, currentUserId: Option<SessionId>, peer: User)
  {
    || (SameId(Some(msg.senderId), currentUserId) && msg.recipientId == Some(peer.id))
    || (msg.senderId == peer.id && SameId(msg.recipientId, currentUserId))
  }

  /** A message of the group conversation: no truthy recipient. */
  predicate InGroupView(msg: Message)
  {
    !IsTruthy(msg.recipientId)
  }

  /** The `filteredMessages` predicate. */
  predicate Shown(msg: Message, currentUserId: Option<SessionId>, selectedPeer: Option<User>)
  {
    if selectedPeer.Some? then InDirectView(msg, currentUserId, selectedPeer.value) else InGroupView(msg)
  }

  /** `messages.filter(...)`: the shown messages, in their order, none
      dropped that should be shown. */
  function FilterMessages(messages: seq<Message>, currentUserId: Option<SessionId>, selectedPeer: Option<User>): (r: seq<Message>)
    ensures IsSubsequence(r, messages)
    ensures forall x :: x in r <==> x in messages && Shown(x, currentUserId, selectedPeer)
    ensures forall x :: multiset(r)[x] == if Shown(x, currentUserId, selectedPeer) then multiset(messages)[x] else 0
  {
    Filter(messages, (msg: Message) => Shown(msg, currentUserId, selectedPeer))
  }

  /** With no peer selected, exactly the messages without a recipient are
      shown, including those with an empty recipient id. */
  lemma GroupViewShows(messages: seq<Message>, currentUserId: Option<SessionId>)
    ensures forall x :: x in FilterMessages(messages, currentUserId, None) <==>
              x in messages && (x.recipientId.None? || x.recipientId == Some(""))
  {
  }

  /** With a peer selected and the current user known, exactly the messages
      between the two are shown, in either direction. */
  lemma DirectViewShows(messages: seq<Message>, me: SessionId, peer: User)
    ensures forall x :: x in FilterMessages(messages, Some(me), Some(peer)) <==>
              && x in messages
              && (|| (x.senderId == me && x.recipientId == Some(peer.id))
                  || (x.senderId == peer.id && x.recipientId == Some(me)))
  {
  }

  /** Before the current user's id is known, a direct view is empty. */
  lemma DirectViewNeedsIdentity(messages: seq<Message>, peer: User)
    ensures FilterMessages(messages, None, Some(peer)) == []
  {
  }

  /** The views never mix: a group message is never in a direct view (ids
      being non-empty), and a direct message is never in the group view. */
  lemma ViewsDisjoint(msg: Message, currentUserId: Option<SessionId>, peer: User)
    requires peer.id != "" && currentUserId != Some("")
    ensures InGroupView(msg) ==> !InDirectView(msg, currentUserId, peer)
    ensures IsTruthy(msg.recipientId) ==> !Shown(msg, currentUserId, None)
  {
  }

  /** `isCurrentUser` of a bubble. */
  predicate IsCurrentUser(msg: Message, currentUserId: Option<SessionId>)
  {
    SameId(Some(msg.senderId), currentUserId)
  }

  /** In a direct view with someone else, a bubble is the user's own exactly
      when the message was addressed to the peer. */
  lemma DirectBubbleSide(msg: Message, me: SessionId, peer: User)
    requires peer.id != me && InDirectView(msg, Some(me), peer)
    ensures IsCurrentUser(msg, Some(me)) <==> msg.recipientId == Some(peer.id)
  {
  }
}
