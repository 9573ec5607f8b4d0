/** The task entity (core/model/Task.java).
    Every field is final and there are no setters, so a task is a value.
    The timestamps are optional because the constructors in use set three,
    four or five fields; a field a constructor does not set is null. */
module TaskModel {
  import opened Wrappers

  /** id, text, status, createdAt, updatedAt, in constructor order. */
  datatype Task = Task(
    id: string,
    text: string,
    status: string,
    createdAt: Option<string>,
    updatedAt: Option<string>)

  /** The three-argument constructor of Task.java: both timestamps stay null. */
  function NewTask(id: string, text: string, status: string): (t: Task)
    ensures t.id == id && t.text == text && t.status == status
    ensures t.createdAt == None && t.updatedAt == None
  {
    Task(id, text, status, None, None)
  }

  /** Each getter returns the constructor argument in its own position, and
      two tasks are equal exactly when all five fields are. */
  lemma GettersRoundTrip(id: string, text: string, status: string, createdAt: string, updatedAt: string)
    ensures var t := Task(id, text, status, Some(createdAt), Some(updatedAt));
      t.id == id && t.text == text && t.status == status
      && t.createdAt == Some(createdAt) && t.updatedAt == Some(updatedAt)
    ensures text != status ==>
      Task(id, text, status, Some(createdAt), Some(updatedAt))
      != Task(id, status, text, Some(createdAt), Some(updatedAt))
  {
  }

  /** The constructor stores what it is given: the documented constraints
      (a UUID id, non-blank text, status inbox or done) are not checked. */
  lemma ConstructorDoesNotValidate()
    ensures NewTask("", " ", "archived").text == " "
    ensures NewTask("", " ", "archived").status == "archived"
    ensures NewTask("", " ", "archived").id == ""
  {
  }
}
