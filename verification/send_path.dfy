/**
  The path of a chat message through the system: typed in the message box,
  guarded and addressed by the chat screen, stamped and routed by the server,
  and filtered into the recipients' message panes.
 */
module SendPath {
  import opened JsString
  import opened Types
  import opened SessionServer
  import MessageInputForm
  import ChatInterface
  import MessageListArea

  /** The text of every message the chat screen emits from the box, and of
      the `new_message` the server routes for it, is trimmed and not blank. */
  lemma SentTextIsTrimmed(box: string, ctx: ChatInterface.SendContext, timestamp: Timestamp,
                          st: ServerState, sid: SessionId, freshId: string)
    requires MessageInputForm.HandleSubmit(box, ctx.isSending).sent.Some?
    requires ChatInterface.HandleSendMessage(ctx, MessageInputForm.HandleSubmit(box, ctx.isSending).sent.value, timestamp).Some?
    requires sid in st.connected && sid in st.registry
    ensures var text := MessageInputForm.HandleSubmit(box, ctx.isSending).sent.value;
            var payload := ChatInterface.HandleSendMessage(ctx, text, timestamp).value;
            var out := SendMessage(st, sid, payload, freshId).out;
            && payload.text == Trim(box)
            && IsTrimmed(payload.text) && payload.text != "" && !IsBlank(payload.text)
            && |out| == 1 && out[0].event.msg.text == payload.text
  {
    MessageInputForm.SentTextTrimmed(box, ctx.isSending);
  }

  /** A group message the server routes (no recipient, or an empty one) is
      shown in every group pane. */
  lemma GroupMessageShownInGroupView(st: ServerState, sid: SessionId, data: SendPayload, freshId: string,
                                     viewer: Option<SessionId>)
    requires sid in st.connected && sid in st.registry && !IsTruthy(data.recipientId)
    ensures MessageListArea.Shown(SendMessage(st, sid, data, freshId).out[0].event.msg, viewer, None)
  {
  }

  /** A direct message the server routes is shown in the sender's pane for
      the recipient and in the recipient's pane for the sender, and in
      nobody's group pane. */
  lemma DirectMessageShownToBoth(st: ServerState, sid: SessionId, data: SendPayload, freshId: string,
                                 recipient: User, sender: User)
    requires sid in st.connected && sid in st.registry
    requires data.recipientId == Some(recipient.id) && recipient.id != ""
    requires sender.id == sid
    ensures var m := SendMessage(st, sid, data, freshId).out[0].event.msg;
            && MessageListArea.Shown(m, Some(sid), Some(recipient))
            && MessageListArea.Shown(m, Some(recipient.id), Some(sender))
            && MessageListArea.IsCurrentUser(m, Some(sid))
            && (recipient.id != sid ==> !MessageListArea.IsCurrentUser(m, Some(recipient.id)))
            && !MessageListArea.Shown(m, Some(sid), None)
  {
  }
}
