/**
  The message box (components/chat/MessageInputForm.tsx): what a submit
  sends and what it leaves in the box, and when the send button is off.
 */
module MessageInputForm {
  import opened JsString
  import opened Types

  /** The box after a submit, and the text handed to `onSendMessage`, if any. */
  datatype SubmitOutcome = SubmitOutcome(text: string, sent: Option<string>)

  /** `handleSubmit`: a non-blank text is sent trimmed while nothing is being
      sent, and the box is cleared; otherwise nothing happens. */
  function HandleSubmit(text: string, isSending: bool): (r: SubmitOutcome)
    ensures r.sent.Some? <==> !IsBlank(text) && !isSending
    ensures r.sent.Some? ==> r.sent.value == Trim(text) && r.text == ""
    ensures r.sent.None? ==> r.text == text
  {
    if !IsBlank(text) && !isSending then SubmitOutcome("", Some(Trim(text)))
    else SubmitOutcome(text, None)
  }

  /** The send button's `disabled` condition. */
  predicate SendDisabled(text: string, isSending: bool)
  {
    IsBlank(text) || isSending
  }

  /** A submit goes through exactly when the send button is enabled. */
  lemma SubmitIffEnabled(text: string, isSending: bool)
    ensures HandleSubmit(text, isSending).sent.Some? <==> !SendDisabled(text, isSending)
  {
  }

  /** What is sent is trimmed, not empty, and not blank: whitespace-only
      input never leaves the box. */
  lemma SentTextTrimmed(text: string, isSending: bool)
    ensures var r := HandleSubmit(text, isSending);
            r.sent.Some? ==> r.sent.value != "" && IsTrimmed(r.sent.value) && !IsBlank(r.sent.value)
    ensures AllWhitespace(text) ==> HandleSubmit(text, isSending).sent.None?
  {
    BlankIffAllWhitespace(text);
    if !IsBlank(text) {
      NotBlankWhenTrimmed(Trim(text));
    }
  }

  /** Submitting the box a second time right away sends nothing more. */
  lemma SecondSubmitSendsNothing(text: string, isSending: bool)
    ensures var first := HandleSubmit(text, isSending);
            first.sent.Some? ==> HandleSubmit(first.text, isSending).sent.None?
  {
    BlankIffAllWhitespace("");
  }
}
