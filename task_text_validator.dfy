/** The task text check (core/validation/text/service/TaskTextValidator.java).
    It depends on its argument alone and only rejects a missing (null) text. */
module TaskTextValidator {
  import opened Wrappers

  predicate IsValidTaskText(text: Option<string>)
    ensures text == Some("") ==> IsValidTaskText(text)
    ensures text == None ==> !IsValidTaskText(text)
  {
    text != None
  }

  /** Every supplied text passes, even the empty and the whitespace-only
      ones the Task documentation calls invalid; emptiness is checked by the
      update handler instead. */
  lemma AcceptsEverySuppliedText(text: string)
    ensures IsValidTaskText(Some(text))
    ensures IsValidTaskText(Some("")) && IsValidTaskText(Some("   "))
    ensures !IsValidTaskText(None)
  {
  }
}
