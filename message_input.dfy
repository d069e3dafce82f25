/** The message box under a conversation: a draft the user edits, sent and
    cleared on submit unless it is blank, and a Send button that is enabled
    only for a non-blank draft of an enabled box. */
module MessageInput {
  import opened Base
  import opened Text

  /** What a submit hands to `onSend`: the draft as typed, untrimmed, or
      nothing when the draft is blank. */
  function Submitted(draft: string): (sent: Option<string>)
    ensures sent.Some? <==> !AllWhitespace(draft)
    ensures sent.Some? ==> sent.value == draft
  {
    TrimEmptyIffBlank(draft);
    if Trim(draft) != "" then Some(draft) else None
  }

  /** The Send button is enabled when the box is enabled and the draft is not blank. */
  function SendEnabled(disabled: bool, draft: string): (enabled: bool)
    ensures enabled <==> !disabled && !AllWhitespace(draft)
  {
    TrimEmptyIffBlank(draft);
    !(disabled || Trim(draft) == "")
  }

  /** An enabled button always sends, and sends the draft; a disabled box's
      button never sends, although submitting the form itself does not look at
      `disabled`. */
  lemma ButtonSendsIffSubmitSends(disabled: bool, draft: string)
    ensures !disabled ==> (SendEnabled(disabled, draft) <==> Submitted(draft).Some?)
    ensures SendEnabled(disabled, draft) ==> Submitted(draft) == Some(draft)
    ensures disabled ==> !SendEnabled(disabled, draft)
  {
  }

  /** The component's `message` state. */
  class Input {
    var draft: string

    constructor ()
      ensures draft == ""
    {
      draft := "";
    }

    /** `onChange`: the draft becomes the input's value. */
    method Change(value: string)
      modifies this
      ensures draft == value
    {
      draft := value;
    }

    /** `handleSubmit`: a blank draft is neither sent nor cleared; any other is
      sent once, as typed, and the box is cleared. */
    method Submit() returns (sent: Option<string>)
      modifies this
      ensures sent == Submitted(old(draft))
      ensures sent.None? ==> draft == old(draft)
      ensures sent.Some? ==> sent.value == old(draft) && draft == ""
    {
      if Trim(draft) != "" {
        sent := Some(draft);
        draft := "";
      } else {
        sent := None;
      }
    }
  }
}
