/** The task status check (core/validation/status/service/TaskStatusValidator.java).
    The implementing method is named isValidOrder in the source although its
    interface declares isValidStatus; it is called IsValidStatus here. */
module TaskStatusValidator {
  import opened Wrappers

  const Done := "done"
  const Inbox := "inbox"

  /** A missing status (null) passes; a supplied one must be exactly
      "done" or "inbox", compared case-sensitively. */
  predicate IsValidStatus(status: Option<string>)
    ensures status == None ==> IsValidStatus(status)
    ensures IsValidStatus(status) && status.Some? ==>
      |status.value| in {4, 5} && forall i :: 0 <= i < |status.value| ==> 'a' <= status.value[i] <= 'z'
  {
    status == None || status == Some(Done) || status == Some(Inbox)
  }

  /** Case matters and nothing is trimmed: near misses are rejected. */
  lemma RejectsNearMisses()
    ensures !IsValidStatus(Some("")) && !IsValidStatus(Some("Inbox"))
    ensures !IsValidStatus(Some(" done")) && !IsValidStatus(Some("DONE"))
    ensures IsValidStatus(None) && IsValidStatus(Some("inbox")) && IsValidStatus(Some("done"))
  {
  }
}
